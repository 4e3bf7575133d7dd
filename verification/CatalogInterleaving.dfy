/** Any number of concurrent hot refreshes (`refresh_hot`, src/catalog.rs).

    A call reads the catalog without a lock to compute its delta, reads it again to preview
    reattribution, and reads it a third time under the lock, where it merges and writes. Other
    calls may commit in between, and the world may differ at each step. */
module CatalogInterleaving {
  import opened Text
  import CatalogMemo
  import opened CatalogRefresh
  import ProjectSlug

  /** A call in progress, with the time of its scan: its delta is computed, or it has also decided to write. */
  datatype Call = Pending(scanned: nat, changed: Rows) | Writing(scanned: nat, changed: Rows)

  /** A commit: when its call scanned, when it wrote, and the delta it wrote. */
  datatype Landing = Landing(scanned: nat, committed: nat, changed: Rows)

  /** `catalog` is the file. The rest is history: the number of steps so far, the commits in order, and every row,
      its project aside, that the first catalog or the delta of some call held. */
  datatype State = State(catalog: Rows, calls: map<nat, Call>, time: nat, log: seq<Landing>, offered: set<(Key, Row)>)

  datatype Action =
    | Scan(p: nat, w: World, cutoff: nat)
    | Preview(p: nat, git: CatalogMemo.World)
    | Commit(p: nat, git: CatalogMemo.World)

  function Offers(rows: Rows): set<(Key, Row)> { set k | k in rows :: (k, rows[k].(project := None)) }

  function Start(catalog: Rows): State { State(catalog, map[], 0, [], Offers(catalog)) }

  /** One step; an action that does not fit the call's progress only passes time. */
  ghost function Next(s: State, a: Action): State { Act(s, a).(time := s.time + 1) }

  ghost function Act(s: State, a: Action): State {
    match a
    case Scan(p, w, cutoff) =>
      if p in s.calls then s
      else
        var changed := Changed(s.catalog, w, cutoff);
        s.(calls := s.calls[p := Pending(s.time, changed)], offered := s.offered + Offers(changed))
    case Preview(p, git) =>
      if p in s.calls && s.calls[p].Pending? then
        var call := s.calls[p];
        if call.changed == map[] && Moved(s.catalog, git) == {} then s.(calls := s.calls - {p})
        else s.(calls := s.calls[p := Writing(call.scanned, call.changed)])
      else s
    case Commit(p, git) =>
      if p in s.calls && s.calls[p].Writing? then
        var call := s.calls[p];
        s.(calls := s.calls - {p}, log := s.log + [Landing(call.scanned, s.time, call.changed)],
           catalog := Merge(s.catalog, call.changed, git))
      else s
  }

  ghost function Run(s: State, actions: seq<Action>): State
    decreases |actions|
  {
    if actions == [] then s else Run(Next(s, actions[0]), actions[1..])
  }

  /** Every key of every committed delta is in the file, and every row of the file and of a call's delta was offered
      under its key. */
  ghost predicate Inv(s: State) {
    && (forall i :: 0 <= i < |s.log| ==> s.log[i].changed.Keys <= s.catalog.Keys)
    && Offers(s.catalog) <= s.offered
    && forall p :: p in s.calls ==> Offers(s.calls[p].changed) <= s.offered
  }

  lemma MergeOffers(rows: Rows, changed: Rows, git: CatalogMemo.World)
    ensures Merge(rows, changed, git).Keys == rows.Keys + changed.Keys
    ensures Offers(Merge(rows, changed, git)) <= Offers(rows) + Offers(changed)
  {
    hide Answer;
    var after := Merge(rows, changed, git);
    forall k | k in after
      ensures (k, after[k].(project := None)) in Offers(rows) + Offers(changed)
    {
      assert after[k].(project := None) == (rows + changed)[k].(project := None);
      if k in changed {
        assert (k, changed[k].(project := None)) in Offers(changed);
      } else {
        assert (k, rows[k].(project := None)) in Offers(rows);
      }
    }
  }

  lemma InOffers(rows: Rows)
    ensures forall k :: k in rows ==> (k, rows[k].(project := None)) in Offers(rows)
  {
  }

  lemma NextKeepsInv(s: State, a: Action)
    requires Inv(s)
    ensures Inv(Next(s, a))
    ensures s.catalog.Keys <= Next(s, a).catalog.Keys && s.log <= Next(s, a).log
  {
    hide Changed, Moved, Merge, Offers;
    if a.Commit? && a.p in s.calls && s.calls[a.p].Writing? {
      MergeOffers(s.catalog, s.calls[a.p].changed, a.git);
    }
  }

  lemma {:induction false} RunKeepsInv(s: State, actions: seq<Action>)
    requires Inv(s)
    ensures Inv(Run(s, actions))
    ensures s.catalog.Keys <= Run(s, actions).catalog.Keys && s.log <= Run(s, actions).log
    decreases |actions|
  {
    hide Next, Inv;
    if actions != [] {
      NextKeepsInv(s, actions[0]);
      RunKeepsInv(Next(s, actions[0]), actions[1..]);
    }
  }

  lemma {:induction false} RunAppend(s: State, before: seq<Action>, after: seq<Action>)
    ensures Run(s, before + after) == Run(Run(s, before), after)
    decreases |before|
  {
    hide Next;
    if before == [] {
      assert before + after == after;
    } else {
      assert (before + after)[0] == before[0] && (before + after)[1..] == before[1..] + after;
      RunAppend(Next(s, before[0]), before[1..], after);
    }
  }

  /** In every run from any catalog, between any two of its moments: no key is lost, every key a committed refresh
      found changed is in the catalog from then on, and no row ever holds anything but its project that the first
      catalog or some scan did not offer under its key. */
  lemma RunKeepsKeys(catalog: Rows, before: seq<Action>, after: seq<Action>)
    ensures var s, t := Run(Start(catalog), before), Run(Start(catalog), before + after);
            && catalog.Keys <= s.catalog.Keys <= t.catalog.Keys
            && s.log <= t.log
            && (forall i :: 0 <= i < |s.log| ==> s.log[i].changed.Keys <= t.catalog.Keys)
            && (forall k :: k in t.catalog ==> (k, t.catalog[k].(project := None)) in t.offered)
  {
    hide Next, Offers;
    InOffers(Run(Start(catalog), before + after).catalog);
    var s := Run(Start(catalog), before);
    RunKeepsInv(Start(catalog), before);
    RunKeepsInv(s, after);
    RunAppend(Start(catalog), before, after);
    RunKeepsInv(Start(catalog), before + after);
  }

  /** What one step may do to the file: a commit writes its own changed rows, reattributed; every other row keeps all
      but its project; nothing else writes. */
  lemma CommitFrame(s: State, a: Action)
    ensures !a.Commit? ==> Next(s, a).catalog == s.catalog
    ensures a.Commit? && a.p in s.calls && s.calls[a.p].Writing? ==>
              var changed, after := s.calls[a.p].changed, Next(s, a).catalog;
              && after.Keys == s.catalog.Keys + changed.Keys
              && forall k :: k in after ==>
                   var before := if k in changed then changed[k] else s.catalog[k];
                   after[k] == before.(project :=
                                         if before.cwd.Some? && before.cwd.value != ""
                                            && CatalogMemo.Fresh(a.git, before.cwd.value).Some?
                                         then Some(ProjectSlug.CanonicalizeProjectSlug(
                                                     CatalogMemo.Fresh(a.git, before.cwd.value).value))
                                         else before.project)
  {
    hide Changed, Moved, Merge, CatalogMemo.Fresh, ProjectSlug.CanonicalizeProjectSlug;
    if a.Commit? && a.p in s.calls && s.calls[a.p].Writing? {
      MergeIsAttributed(s.catalog, s.calls[a.p].changed, a.git);
    }
  }

  /** Undisturbed, the three steps of a call do what one refresh does. */
  lemma AloneIsRefresh(rows: Rows, w: World, cutoff: nat, actions: seq<Action>)
    requires actions == [Scan(0, w, cutoff), Preview(0, w.git), Commit(0, w.git)]
    ensures Run(Start(rows), actions).catalog == Refreshed(rows, w, cutoff)
    ensures Run(Start(rows), actions).calls == map[]
    ensures Run(Start(rows), actions).log
            == if Quiet(rows, w, cutoff) then [] else [Landing(0, 2, Changed(rows, w, cutoff))]
  {
    hide Changed, Moved, Merge, Offers;
    var s1 := Next(Start(rows), actions[0]);
    var s2 := Next(s1, actions[1]);
    var s3 := Next(s2, actions[2]);
    assert actions[1..][0] == actions[1] && actions[1..][1..][0] == actions[2];
    assert Run(s3, actions[1..][1..][1..]) == s3;
    assert Run(s2, actions[1..][1..]) == s3;
    assert Run(s1, actions[1..]) == s3;
  }

  // ---- Whose reading the file holds

  /** The last of some commits whose delta holds a key. */
  function LastHolder(log: seq<Landing>, k: Key): (r: Option<nat>)
    ensures r.None? ==> forall i :: 0 <= i < |log| ==> k !in log[i].changed
    ensures r.Some? ==> r.value < |log| && k in log[r.value].changed
    ensures r.Some? ==> forall i :: r.value < i < |log| ==> k !in log[i].changed
  {
    if log == [] then None
    else if k in log[|log| - 1].changed then Some(|log| - 1)
    else LastHolder(log[..|log| - 1], k)
  }

  /** The row of `k`, its project aside, is that of the last commit that held `k`, or the first catalog's. */
  ghost predicate HoldsLast(first: Rows, s: State, k: Key) {
    match LastHolder(s.log, k)
    case Some(i) => k in s.catalog && s.catalog[k].(project := None) == s.log[i].changed[k].(project := None)
    case None =>
      && (k in s.catalog <==> k in first)
      && (k in s.catalog ==> s.catalog[k].(project := None) == first[k].(project := None))
  }

  /** Scans take distinct times, each commit follows its scan, and the log is in commit order. */
  ghost predicate Timely(s: State) {
    && (forall p :: p in s.calls ==> s.calls[p].scanned < s.time)
    && (forall p, q :: p in s.calls && q in s.calls && p != q ==> s.calls[p].scanned != s.calls[q].scanned)
    && (forall p, i :: p in s.calls && 0 <= i < |s.log| ==> s.calls[p].scanned != s.log[i].scanned)
    && Ordered(s.log)
    && (forall i :: 0 <= i < |s.log| ==> s.log[i].scanned < s.log[i].committed < s.time)
  }

  ghost predicate Ordered(log: seq<Landing>) {
    forall i, j :: 0 <= i < j < |log| ==> log[i].committed < log[j].committed && log[i].scanned != log[j].scanned
  }

  lemma NextHoldsLast(first: Rows, s: State, a: Action, k: Key)
    requires HoldsLast(first, s, k)
    ensures HoldsLast(first, Next(s, a), k)
  {
    hide Changed, Moved, Merge, Offers, Answer;
    if a.Commit? && a.p in s.calls && s.calls[a.p].Writing? {
      var log := Next(s, a).log;
      assert log[..|log| - 1] == s.log;
      MergedRow(s.catalog, s.calls[a.p].changed, a.git, k);
    }
  }

  lemma MergedRow(rows: Rows, changed: Rows, git: CatalogMemo.World, k: Key)
    ensures k in Merge(rows, changed, git) <==> k in rows || k in changed
    ensures k in changed ==> Merge(rows, changed, git)[k].(project := None) == changed[k].(project := None)
    ensures k in rows && k !in changed ==>
              Merge(rows, changed, git)[k].(project := None) == rows[k].(project := None)
  {
    hide Answer;
  }

  lemma NextIsTimely(s: State, a: Action)
    requires Timely(s)
    ensures Timely(Next(s, a))
  {
    hide Changed, Moved, Merge, Offers, Ordered;
    if a.Commit? && a.p in s.calls && s.calls[a.p].Writing? {
      OneMoreLanding(s.log, Landing(s.calls[a.p].scanned, s.time, s.calls[a.p].changed));
    }
  }

  lemma OneMoreLanding(log: seq<Landing>, last: Landing)
    requires Ordered(log)
    requires forall i :: 0 <= i < |log| ==> log[i].committed < last.committed && log[i].scanned != last.scanned
    ensures Ordered(log + [last])
  {
  }

  lemma {:induction false} RunHistory(first: Rows, s: State, actions: seq<Action>, k: Key)
    requires HoldsLast(first, s, k) && Timely(s)
    ensures HoldsLast(first, Run(s, actions), k) && Timely(Run(s, actions))
    decreases |actions|
  {
    hide Next, HoldsLast, Timely;
    if actions != [] {
      NextHoldsLast(first, s, actions[0], k);
      NextIsTimely(s, actions[0]);
      RunHistory(first, Next(s, actions[0]), actions[1..], k);
    }
  }

  /** In every run the file holds, for each key, the reading of the last commit that held it. */
  lemma LastCommitDecides(catalog: Rows, actions: seq<Action>, k: Key)
    ensures HoldsLast(catalog, Run(Start(catalog), actions), k) && Timely(Run(Start(catalog), actions))
  {
    RunHistory(catalog, Start(catalog), actions, k);
  }

  /** Of the commits that held `k`, the one whose call scanned last. */
  ghost predicate IsNewest(log: seq<Landing>, k: Key, i: nat) {
    && i < |log| && k in log[i].changed
    && forall j :: 0 <= j < |log| && k in log[j].changed ==> log[j].scanned <= log[i].scanned
  }

  /** `inner` scanned and committed between the scan and the commit of `outer`. */
  predicate Spans(outer: Landing, inner: Landing) {
    outer.scanned < inner.scanned && inner.committed < outer.committed
  }

  lemma NewestIsLastIff(log: seq<Landing>, k: Key, i: nat)
    requires Ordered(log) && IsNewest(log, k, i)
    ensures LastHolder(log, k) == Some(i)
            <==> forall j :: 0 <= j < |log| && k in log[j].changed ==> !Spans(log[j], log[i])
  {
    var last := LastHolder(log, k).value;
    if last != i {
      assert i < last && log[last].scanned != log[i].scanned;
      assert Spans(log[last], log[i]);
    }
  }

  /** In every run: the file holds the newest committed reading of a session if and only if the call that committed
      the session last is the one that scanned it last, or read the same row; and it is that call if and only if no
      call that held the session spans it. */
  lemma NewestReadingIff(catalog: Rows, actions: seq<Action>, k: Key, i: nat)
    requires IsNewest(Run(Start(catalog), actions).log, k, i)
    ensures var s := Run(Start(catalog), actions);
            var last := LastHolder(s.log, k);
            && last.Some? && k in s.catalog
            && (s.catalog[k].(project := None) == s.log[i].changed[k].(project := None)
                <==> || last.value == i
                     || s.log[last.value].changed[k].(project := None) == s.log[i].changed[k].(project := None))
            && (last.value == i
                <==> forall j :: 0 <= j < |s.log| && k in s.log[j].changed ==> !Spans(s.log[j], s.log[i]))
  {
    hide Run, LastHolder;
    LastCommitDecides(catalog, actions, k);
    NewestIsLastIff(Run(Start(catalog), actions).log, k, i);
  }

  /** After each of the commits, the last one to hold `k` is the newest reading. */
  ghost predicate AlwaysNewest(log: seq<Landing>, k: Key) {
    forall n, i: nat :: 0 <= n <= |log| && IsNewest(log[..n], k, i) ==> LastHolder(log[..n], k) == Some(i)
  }

  /** No two calls that held `k` span one another. */
  ghost predicate NoneSpans(log: seq<Landing>, k: Key) {
    forall i, j :: 0 <= i < |log| && 0 <= j < |log| && k in log[i].changed && k in log[j].changed ==>
      !Spans(log[j], log[i])
  }

  lemma {:induction false} NewestExists(log: seq<Landing>, k: Key) returns (i: nat)
    requires exists j :: 0 <= j < |log| && k in log[j].changed
    ensures IsNewest(log, k, i)
    decreases |log|
  {
    var n := |log| - 1;
    var before := log[..n];
    if exists j :: 0 <= j < |before| && k in before[j].changed {
      i := NewestExists(before, k);
      if k in log[n].changed && log[n].scanned > log[i].scanned { i := n; }
      assert forall j :: 0 <= j < n ==> log[j] == before[j];
    } else {
      assert forall j :: 0 <= j < n ==> log[j] == before[j];
      i := n;
    }
  }

  /** What a caller can arrange: in every run, the catalog follows the newest reading of a session after every commit
      if and only if no call that held the session scanned and committed between the scan and the commit of another
      that held it. */
  lemma NewestStaysIff(catalog: Rows, actions: seq<Action>, k: Key)
    ensures var log := Run(Start(catalog), actions).log; AlwaysNewest(log, k) <==> NoneSpans(log, k)
  {
    hide Run, LastHolder, Spans;
    LastCommitDecides(catalog, actions, k);
    var log := Run(Start(catalog), actions).log;
    if NoneSpans(log, k) {
      forall n, i: nat | 0 <= n <= |log| && IsNewest(log[..n], k, i)
        ensures LastHolder(log[..n], k) == Some(i)
      {
        NewestIsLastIff(log[..n], k, i);
      }
    }
    if AlwaysNewest(log, k) {
      forall i, j | 0 <= i < |log| && 0 <= j < |log| && k in log[i].changed && k in log[j].changed
        ensures !Spans(log[j], log[i])
      {
        NoSpanAt(log, k, i, j);
      }
    }
  }

  lemma NoSpanAt(log: seq<Landing>, k: Key, i: nat, j: nat)
    requires Ordered(log) && AlwaysNewest(log, k)
    requires i < |log| && j < |log| && k in log[i].changed && k in log[j].changed
    ensures !Spans(log[j], log[i])
  {
    var upTo := log[..j + 1];
    assert upTo[j] == log[j];
    var newest := NewestExists(upTo, k);
    assert LastHolder(upTo, k) == Some(newest);
    assert newest == j;
    assert i < j ==> upTo[i] == log[i];
  }

  /** It can happen: if two calls find a session changed and the one that scanned first commits last, the older
      reading is back in the file. */
  lemma OlderScanCanWin(rows: Rows, older: World, newer: World, cutoff: nat, k: Key, actions: seq<Action>)
    requires k in Changed(rows, older, cutoff) && k in Changed(rows, newer, cutoff)
    requires actions == [Scan(0, older, cutoff), Scan(1, newer, cutoff), Preview(0, older.git), Preview(1, newer.git),
                         Commit(1, newer.git), Commit(0, newer.git)]
    ensures var s := Run(Start(rows), actions);
            && s.log == [Landing(1, 4, Changed(rows, newer, cutoff)), Landing(0, 5, Changed(rows, older, cutoff))]
            && k in s.catalog && s.catalog[k] == Reattributed(Changed(rows, older, cutoff)[k], newer.git)
  {
    hide Changed, Moved, Offers, Reattributed, Run;
    var s1 := Next(Start(rows), actions[0]);
    var s2 := Next(s1, actions[1]);
    var s3 := Next(s2, actions[2]);
    var s4 := Next(s3, actions[3]);
    var s5 := Next(s4, actions[4]);
    var s6 := Next(s5, actions[5]);
    assert s4.calls[0] == Writing(0, Changed(rows, older, cutoff));
    assert s5.calls[0] == Writing(0, Changed(rows, older, cutoff));
    assert s6.catalog[k] == Reattributed(Changed(rows, older, cutoff)[k], newer.git);
    SixSteps(Start(rows), actions);
  }

  lemma SixSteps(s: State, actions: seq<Action>)
    requires |actions| == 6
    ensures Run(s, actions)
            == Next(Next(Next(Next(Next(Next(s, actions[0]), actions[1]), actions[2]), actions[3]), actions[4]),
                    actions[5])
  {
    hide Next;
    var s1 := Next(s, actions[0]);
    var s2 := Next(s1, actions[1]);
    var s3 := Next(s2, actions[2]);
    var s4 := Next(s3, actions[3]);
    var s5 := Next(s4, actions[4]);
    var s6 := Next(s5, actions[5]);
    assert Run(s6, actions[6..]) == s6;
    RunFrom(s5, actions, 5);
    RunFrom(s4, actions, 4);
    RunFrom(s3, actions, 3);
    RunFrom(s2, actions, 2);
    RunFrom(s1, actions, 1);
  }

  lemma RunFrom(s: State, actions: seq<Action>, i: nat)
    requires i < |actions|
    ensures Run(s, actions[i..]) == Run(Next(s, actions[i]), actions[i + 1..])
  {
    assert actions[i..][1..] == actions[i + 1..];
  }
}

/** The hot refresh of the session catalog as a function of the world (`refresh_hot`, `live_delta_uncached` and
    `reattribute_catalog_entries`, src/catalog.rs), and the fixed points it reaches. */
module CatalogRefresh {
  import opened Text
  import CatalogMemo
  import ProjectSlug

  const U64_RANGE: nat := 0x1_0000_0000_0000_0000

  /** A stored time. */
  type U64 = n: nat | n < U64_RANGE

  datatype Key = Key(agent: string, session: string)

  predicate KeyLeq(a: Key, b: Key) {
    if a.agent == b.agent then LexLeq(a.session, b.session) else LexLeq(a.agent, b.agent)
  }

  /** A catalog row without its key; `other` stands for the columns no comparison reads. */
  datatype Row = Row(path: string, len: Option<nat>, mtime: Option<U64>, bundle: Option<string>,
                     project: Option<string>, cwd: Option<string>, other: string)

  /** A scanned file is measured before it is read; an enriched source (runtime runs, bus ledgers, dictated takes)
      is always read. */
  datatype Evidence =
    | Scanned(len: nat, mtime: nat, bundle: Option<string>)
    | Enriched(size: Option<nat>, time: Option<U64>)

  datatype Source = Source(path: string, key: Key, evidence: Evidence, guess: Option<string>, cwd: Option<string>,
                           other: string)

  /** The sources in the order they are scanned, and what the git lookups read. */
  datatype World = World(sources: seq<Source>, git: CatalogMemo.World)

  type Rows = map<Key, Row>

  /** The row a source yields before reattribution; its mtime is truncated to 64 bits. */
  function RowOf(s: Source): Row {
    match s.evidence
    case Scanned(len, mtime, bundle) =>
      Row(s.path, Some(len), Some(mtime % U64_RANGE), bundle, s.guess, s.cwd, s.other)
    case Enriched(size, time) => Row(s.path, size, time, None, s.guess, s.cwd, s.other)
  }

  /** The project of a row's checkout, when git names one. */
  function Answer(row: Row, git: CatalogMemo.World): Option<string> {
    if row.cwd.None? || row.cwd.value == "" then None
    else
      match CatalogMemo.Fresh(git, row.cwd.value)
      case None => None
      case Some(project) => Some(ProjectSlug.CanonicalizeProjectSlug(project))
  }

  function Reattributed(row: Row, git: CatalogMemo.World): Row {
    if Answer(row, git).Some? then row.(project := Answer(row, git)) else row
  }

  function ReattributeAll(rows: Rows, git: CatalogMemo.World): Rows {
    map k | k in rows :: Reattributed(rows[k], git)
  }

  /** The rows whose project reattribution changes. */
  function Moved(rows: Rows, git: CatalogMemo.World): set<Key> {
    set k | k in rows && Reattributed(rows[k], git) != rows[k]
  }

  predicate HasPrint(row: Row) { row.len.Some? && row.mtime.Some? }

  /** The row whose fingerprint counts for a path: among those with a fingerprint, the last in key order. */
  ghost predicate Owner(rows: Rows, path: string, k: Key) {
    && k in rows && HasPrint(rows[k]) && rows[k].path == path
    && forall j :: j in rows && HasPrint(rows[j]) && rows[j].path == path ==> KeyLeq(j, k)
  }

  predicate SamePrint(row: Row, s: Source) {
    && s.evidence.Scanned?
    && row.len == Some(s.evidence.len) && row.mtime == Some(s.evidence.mtime) && row.bundle == s.evidence.bundle
  }

  ghost predicate Known(rows: Rows, s: Source) {
    exists k :: Owner(rows, s.path, k) && SamePrint(rows[k], s)
  }

  predicate Hot(s: Source, cutoff: nat) { s.evidence.Scanned? ==> s.evidence.mtime >= cutoff }

  /** The sources a scan reads. */
  ghost predicate Selected(rows: Rows, s: Source, cutoff: nat) {
    Hot(s, cutoff) && !Known(rows, s)
  }

  /** The rows a scan yields; of two sources with one key, the later one wins. */
  ghost function Admit(rows: Rows, sources: seq<Source>, git: CatalogMemo.World, cutoff: nat): Rows {
    if sources == [] then map[]
    else
      var s := sources[|sources| - 1];
      var before := Admit(rows, sources[..|sources| - 1], git, cutoff);
      if Selected(rows, s, cutoff) then before[s.key := Reattributed(RowOf(s), git)] else before
  }

  predicate Differs(a: Row, b: Row) {
    || a.path != b.path || a.len != b.len || a.mtime != b.mtime || a.bundle != b.bundle
    || a.project != b.project || a.cwd != b.cwd
  }

  /** The rows of the scan that the catalog lacks or holds differently. */
  ghost function Changed(rows: Rows, w: World, cutoff: nat): Rows {
    var scan := Admit(rows, w.sources, w.git, cutoff);
    map k | k in scan && (k !in rows || Differs(rows[k], scan[k])) :: scan[k]
  }

  ghost function Unadmitted(rows: Rows, w: World, cutoff: nat): set<Key> {
    set k | k in Admit(rows, w.sources, w.git, cutoff) && k !in rows
  }

  /** What a commit writes. */
  function Merge(rows: Rows, changed: Rows, git: CatalogMemo.World): Rows {
    ReattributeAll(rows + changed, git)
  }

  /** A refresh that would find nothing to do. */
  ghost predicate Quiet(rows: Rows, w: World, cutoff: nat) {
    Changed(rows, w, cutoff) == map[] && Moved(rows, w.git) == {}
  }

  /** The catalog after one refresh in an unchanging world. */
  ghost function Refreshed(rows: Rows, w: World, cutoff: nat): Rows {
    if Quiet(rows, w, cutoff) then rows else Merge(rows, Changed(rows, w, cutoff), w.git)
  }

  ghost function Iterate(rows: Rows, w: World, cutoff: nat, n: nat): Rows
    decreases n
  {
    if n == 0 then rows else Iterate(Refreshed(rows, w, cutoff), w, cutoff, n - 1)
  }

  ghost predicate UniqueKeys(sources: seq<Source>) {
    forall i, j :: 0 <= i < j < |sources| ==> sources[i].key != sources[j].key
  }

  /** A scanned file shares its path with no other source. Enriched sources may share one: the sessions of a bus
      ledger heard by several recipients all have the ledger's path. */
  ghost predicate UniqueFiles(sources: seq<Source>) {
    forall i, j :: 0 <= i < j < |sources| && sources[i].path == sources[j].path ==>
      sources[i].evidence.Enriched? && sources[j].evidence.Enriched?
  }

  /** The catalog's row for a source's key already says what a scan of the source would. */
  predicate Settled(rows: Rows, s: Source, git: CatalogMemo.World) {
    s.key in rows && !Differs(rows[s.key], Reattributed(RowOf(s), git))
  }

  // ---- One step

  lemma ReattributeTwice(row: Row, git: CatalogMemo.World)
    ensures Reattributed(Reattributed(row, git), git) == Reattributed(row, git)
  {
    assert Answer(Reattributed(row, git), git) == Answer(row, git);
  }

  lemma {:induction false} AdmitKeys(rows: Rows, sources: seq<Source>, git: CatalogMemo.World, cutoff: nat)
    ensures forall k :: k in Admit(rows, sources, git, cutoff)
              <==> exists s :: s in sources && s.key == k && Selected(rows, s, cutoff)
    ensures forall k :: k in Admit(rows, sources, git, cutoff) ==>
              exists s :: s in sources && s.key == k && Selected(rows, s, cutoff)
                && Admit(rows, sources, git, cutoff)[k] == Reattributed(RowOf(s), git)
    decreases |sources|
  {
    hide Selected, Reattributed, RowOf;
    if sources != [] {
      var n := |sources| - 1;
      AdmitKeys(rows, sources[..n], git, cutoff);
      assert sources == sources[..n] + [sources[n]];
      assert forall s :: s in sources <==> s in sources[..n] || s == sources[n];
    }
  }

  lemma OneSourcePerKey(sources: seq<Source>, s: Source, t: Source)
    requires UniqueKeys(sources) && s in sources && t in sources && s.key == t.key
    ensures s == t
  {
  }

  /** What obliges a scan to read a source: it is enriched, or not older than the cutoff, and then the last row in key
      order with its path, a size and a time does not have its size, time and bundle. */
  ghost predicate Due(rows: Rows, s: Source, cutoff: nat) {
    match s.evidence
    case Enriched(_, _) => true
    case Scanned(len, mtime, bundle) =>
      && mtime >= cutoff
      && forall k :: k in rows && rows[k].path == s.path && LastMeasured(rows, k) ==>
           !(rows[k].len == Some(len) && rows[k].mtime == Some(mtime) && rows[k].bundle == bundle)
  }

  /** No later key, by agent and then session, holds a size and a time for the same path. */
  ghost predicate LastMeasured(rows: Rows, k: Key) {
    && k in rows && rows[k].len.Some? && rows[k].mtime.Some?
    && forall j :: j in rows && rows[j].path == rows[k].path && rows[j].len.Some? && rows[j].mtime.Some? ==>
         if j.agent == k.agent then LexLeq(j.session, k.session) else LexLeq(j.agent, k.agent)
  }

  lemma DueIsSelected(rows: Rows, s: Source, cutoff: nat)
    ensures Due(rows, s, cutoff) <==> Selected(rows, s, cutoff)
  {
    hide LexLeq;
    forall k
      ensures Owner(rows, s.path, k) <==> k in rows && rows[k].path == s.path && LastMeasured(rows, k)
    {
    }
    if s.evidence.Scanned? && s.evidence.mtime >= cutoff {
      if Known(rows, s) {
        var k :| Owner(rows, s.path, k) && SamePrint(rows[k], s);
        assert k in rows && rows[k].path == s.path && LastMeasured(rows, k);
      }
      forall k | k in rows && rows[k].path == s.path && LastMeasured(rows, k) && !Known(rows, s)
        ensures !SamePrint(rows[k], s)
      {
        assert Owner(rows, s.path, k);
      }
    }
  }

  lemma ReattributedMeans(row: Row, git: CatalogMemo.World)
    ensures Reattributed(row, git)
            == row.(project :=
                      if row.cwd.Some? && row.cwd.value != "" && CatalogMemo.Fresh(git, row.cwd.value).Some?
                      then Some(ProjectSlug.CanonicalizeProjectSlug(CatalogMemo.Fresh(git, row.cwd.value).value))
                      else row.project)
  {
    hide CatalogMemo.Fresh, ProjectSlug.CanonicalizeProjectSlug;
  }

  /** With unique keys, a source is among the changed rows exactly when it is read and not settled. */
  lemma ChangedExactly(rows: Rows, w: World, cutoff: nat, s: Source)
    requires UniqueKeys(w.sources) && s in w.sources
    ensures s.key in Changed(rows, w, cutoff) <==> Selected(rows, s, cutoff) && !Settled(rows, s, w.git)
    ensures s.key in Changed(rows, w, cutoff) ==> Changed(rows, w, cutoff)[s.key] == Reattributed(RowOf(s), w.git)
  {
    hide Selected, Reattributed, RowOf, Differs, Admit;
    AdmitKeys(rows, w.sources, w.git, cutoff);
    var scan := Admit(rows, w.sources, w.git, cutoff);
    if s.key in scan {
      var t :| t in w.sources && t.key == s.key && Selected(rows, t, cutoff)
               && scan[s.key] == Reattributed(RowOf(t), w.git);
      OneSourcePerKey(w.sources, s, t);
    }
  }

  lemma ChangedHaveSources(rows: Rows, w: World, cutoff: nat)
    requires UniqueKeys(w.sources)
    ensures forall k :: k in Changed(rows, w, cutoff) ==>
              (exists s :: s in w.sources && s.key == k && Selected(rows, s, cutoff) && !Settled(rows, s, w.git))
  {
    hide Selected, Reattributed, RowOf, Differs, Admit, Settled;
    AdmitKeys(rows, w.sources, w.git, cutoff);
    forall k | k in Changed(rows, w, cutoff)
      ensures exists s :: s in w.sources && s.key == k && Selected(rows, s, cutoff) && !Settled(rows, s, w.git)
    {
      var s :| s in w.sources && s.key == k && Selected(rows, s, cutoff);
      ChangedExactly(rows, w, cutoff, s);
    }
  }

  /** With unique keys, the changed rows are those of the sources that are due and whose row the catalog lacks, or
      holds with another place, size, time (in 64 bits), bundle, working directory or project; the project being the
      one git names for the directory, else the guess. */
  lemma ChangedMeans(rows: Rows, w: World, cutoff: nat, s: Source)
    requires UniqueKeys(w.sources) && s in w.sources
    ensures var project :=
              if s.cwd.Some? && s.cwd.value != "" && CatalogMemo.Fresh(w.git, s.cwd.value).Some?
              then Some(ProjectSlug.CanonicalizeProjectSlug(CatalogMemo.Fresh(w.git, s.cwd.value).value))
              else s.guess;
            var row := match s.evidence
                       case Scanned(len, mtime, bundle) =>
                         Row(s.path, Some(len), Some(mtime % U64_RANGE), bundle, project, s.cwd, s.other)
                       case Enriched(size, time) => Row(s.path, size, time, None, project, s.cwd, s.other);
            && (s.key in Changed(rows, w, cutoff)
                <==> Due(rows, s, cutoff) && !(s.key in rows && rows[s.key].(other := s.other) == row))
            && (s.key in Changed(rows, w, cutoff) ==> Changed(rows, w, cutoff)[s.key] == row)
  {
    DueIsSelected(rows, s, cutoff);
    hide CatalogMemo.Fresh, ProjectSlug.CanonicalizeProjectSlug, Changed, Selected, Due, Reattributed;
    ChangedExactly(rows, w, cutoff, s);
    ReattributedMeans(RowOf(s), w.git);
  }

  /** After a merge every row with a working directory git names a project for carries that project; a row the merge
      did not bring keeps all else, and its project when git names none. */
  lemma MergeIsAttributed(rows: Rows, changed: Rows, git: CatalogMemo.World)
    ensures Moved(Merge(rows, changed, git), git) == {}
    ensures Merge(rows, changed, git).Keys == rows.Keys + changed.Keys
    ensures forall k :: k in Merge(rows, changed, git) ==>
              var row, before := Merge(rows, changed, git)[k], if k in changed then changed[k] else rows[k];
              row == before.(project :=
                               if before.cwd.Some? && before.cwd.value != ""
                                  && CatalogMemo.Fresh(git, before.cwd.value).Some?
                               then Some(ProjectSlug.CanonicalizeProjectSlug(
                                           CatalogMemo.Fresh(git, before.cwd.value).value))
                               else before.project)
  {
    hide CatalogMemo.Fresh, ProjectSlug.CanonicalizeProjectSlug;
    forall k | k in rows + changed { ReattributedMeans((rows + changed)[k], git); }
    hide Reattributed;
    forall k | k in rows + changed
      ensures Reattributed(Merge(rows, changed, git)[k], git) == Merge(rows, changed, git)[k]
    {
      ReattributeTwice((rows + changed)[k], git);
    }
  }

  lemma SettledIsAttributed(rows: Rows, s: Source, git: CatalogMemo.World)
    requires Settled(rows, s, git)
    ensures !Differs(Reattributed(rows[s.key], git), Reattributed(RowOf(s), git))
  {
    hide CatalogMemo.Fresh, ProjectSlug.CanonicalizeProjectSlug;
    assert Answer(rows[s.key], git) == Answer(RowOf(s), git);
  }

  /** A refresh settles every source it reads and unsettles none. */
  lemma RefreshSettles(rows: Rows, w: World, cutoff: nat, s: Source)
    requires UniqueKeys(w.sources) && s in w.sources
    requires Selected(rows, s, cutoff) || Settled(rows, s, w.git)
    ensures Settled(Refreshed(rows, w, cutoff), s, w.git)
  {
    hide Selected, Reattributed, RowOf, Changed, Moved;
    ChangedExactly(rows, w, cutoff, s);
    var changed := Changed(rows, w, cutoff);
    if !Quiet(rows, w, cutoff) {
      if s.key in changed {
        ReattributeTwice(RowOf(s), w.git);
      } else {
        SettledIsAttributed(rows, s, w.git);
      }
    }
  }

  /** After a refresh the row of every source it read says what the source says: place, size, time (in 64 bits), bundle
      and working directory, and as project what git answers for that directory, else the guess. */
  lemma RefreshedRowMatchesSource(rows: Rows, w: World, cutoff: nat, s: Source)
    requires UniqueKeys(w.sources) && s in w.sources && Due(rows, s, cutoff)
    ensures var next := Refreshed(rows, w, cutoff);
            && s.key in next && next[s.key].path == s.path && next[s.key].cwd == s.cwd
            && (match s.evidence
                case Scanned(len, mtime, bundle) =>
                  && next[s.key].len == Some(len) && next[s.key].mtime == Some(mtime % U64_RANGE)
                  && next[s.key].bundle == bundle
                case Enriched(size, time) =>
                  next[s.key].len == size && next[s.key].mtime == time && next[s.key].bundle == None)
            && (if s.cwd.Some? && s.cwd.value != "" && CatalogMemo.Fresh(w.git, s.cwd.value).Some?
                then next[s.key].project
                     == Some(ProjectSlug.CanonicalizeProjectSlug(CatalogMemo.Fresh(w.git, s.cwd.value).value))
                else next[s.key].project == s.guess)
  {
    DueIsSelected(rows, s, cutoff);
    ReattributedMeans(RowOf(s), w.git);
    hide Selected, Due, Refreshed, Reattributed, CatalogMemo.Fresh, ProjectSlug.CanonicalizeProjectSlug;
    RefreshSettles(rows, w, cutoff, s);
  }

  /** Every row, read or not: the keys after a refresh are those before and those of the sources due. A row whose
      directory git names a project for carries it. A row no due source claims keeps all else, and its project when
      git names none. */
  lemma RefreshedRowsAttributed(rows: Rows, w: World, cutoff: nat, k: Key)
    ensures var next := Refreshed(rows, w, cutoff);
            && (k in next <==> k in rows || exists s :: s in w.sources && s.key == k && Due(rows, s, cutoff))
            && (k in next && next[k].cwd.Some? && next[k].cwd.value != "" ==>
                  forall p :: CatalogMemo.Fresh(w.git, next[k].cwd.value) == Some(p) ==>
                    next[k].project == Some(ProjectSlug.CanonicalizeProjectSlug(p)))
            && (k in rows && (forall s :: s in w.sources && s.key == k ==> !Due(rows, s, cutoff)) ==>
                  && next[k] == rows[k].(project := next[k].project)
                  && (rows[k].cwd.None? || rows[k].cwd.value == "" || CatalogMemo.Fresh(w.git, rows[k].cwd.value).None? ==>
                        next[k].project == rows[k].project))
  {
    hide CatalogMemo.Fresh, ProjectSlug.CanonicalizeProjectSlug, Admit, Differs, Due, Selected;
    forall s { DueIsSelected(rows, s, cutoff); }
    AdmitKeys(rows, w.sources, w.git, cutoff);
    RefreshedIsAttributed(rows, w, cutoff);
    var next := Refreshed(rows, w, cutoff);
    if k in next {
      assert Reattributed(next[k], w.git) == next[k] by { assert k !in Moved(next, w.git); }
      ReattributedMeans(next[k], w.git);
    }
    if k in rows { ReattributedMeans(rows[k], w.git); }
    var changed := Changed(rows, w, cutoff);
    assert k in next <==> k in rows || k in changed;
    assert k in Admit(rows, w.sources, w.git, cutoff) ==> k in rows || k in changed;
    assert k in changed ==> k in Admit(rows, w.sources, w.git, cutoff);
    hide Reattributed, RowOf;
  }

  lemma RefreshedIsAttributed(rows: Rows, w: World, cutoff: nat)
    ensures Moved(Refreshed(rows, w, cutoff), w.git) == {}
  {
    hide Changed, Moved, Merge;
    MergeIsAttributed(rows, Changed(rows, w, cutoff), w.git);
  }

  /** A catalog is quiet exactly when its rows are attributed and every source a scan reads is settled. */
  lemma QuietMeans(rows: Rows, w: World, cutoff: nat)
    requires UniqueKeys(w.sources)
    ensures Quiet(rows, w, cutoff)
            <==> Moved(rows, w.git) == {}
                 && forall s :: s in w.sources && Selected(rows, s, cutoff) ==> Settled(rows, s, w.git)
    ensures Moved(rows, w.git) == {}
            <==> forall k, p :: k in rows && rows[k].cwd.Some? && rows[k].cwd.value != ""
                                && CatalogMemo.Fresh(w.git, rows[k].cwd.value) == Some(p)
                   ==> rows[k].project == Some(ProjectSlug.CanonicalizeProjectSlug(p))
  {
    hide CatalogMemo.Fresh, ProjectSlug.CanonicalizeProjectSlug;
    forall k | k in rows { ReattributedMeans(rows[k], w.git); }
    assert Moved(rows, w.git) == {} <==> forall k :: k in rows ==> k !in Moved(rows, w.git);
    hide Selected, Settled, Changed, Moved, Reattributed;
    forall s | s in w.sources { ChangedExactly(rows, w, cutoff, s); }
    ChangedHaveSources(rows, w, cutoff);
    var changed := Changed(rows, w, cutoff);
    if forall s :: s in w.sources && Selected(rows, s, cutoff) ==> Settled(rows, s, w.git) {
      assert forall k :: k !in changed;
      assert changed == map[];
    }
  }

  /** Nothing is unadmitted in a quiet catalog. */
  lemma QuietIsAdmitted(rows: Rows, w: World, cutoff: nat)
    requires Quiet(rows, w, cutoff)
    ensures Unadmitted(rows, w, cutoff) == {}
  {
    hide Admit, Moved, Differs;
    assert forall k :: k in Unadmitted(rows, w, cutoff) ==> k in Changed(rows, w, cutoff);
  }

  lemma SameOwners(rows: Rows, git: CatalogMemo.World, s: Source)
    ensures Known(ReattributeAll(rows, git), s) <==> Known(rows, s)
  {
    hide KeyLeq, Answer;
    var after := ReattributeAll(rows, git);
    forall k
      ensures Owner(after, s.path, k) <==> Owner(rows, s.path, k)
    {
    }
    if Known(rows, s) {
      var k :| Owner(rows, s.path, k) && SamePrint(rows[k], s);
      assert Owner(after, s.path, k) && SamePrint(after[k], s);
    }
    if Known(after, s) {
      var k :| Owner(after, s.path, k) && SamePrint(after[k], s);
      assert Owner(rows, s.path, k) && SamePrint(rows[k], s);
    }
  }
}

/** The hot refresh as it runs (`refresh_hot`, `live_delta_uncached` and `reattribute_catalog_entries`,
    src/catalog.rs): loops over ordered maps, a memo that fills up on the way, and two files. */
module HotRefresh {
  import opened Ordering
  import opened Text
  import opened CatalogMemo
  import opened CatalogRefresh
  import ProjectSlug

  // ---- Ordered iteration

  /** `keys` lists the keys of a map in order, as iteration over an ordered map does. */
  ghost predicate Listing(keys: seq<Key>, all: set<Key>) { Enumerates(keys, all, KeyLeq) }

  lemma KeyOrder()
    ensures TotalPreorder(KeyLeq)
  {
    forall a: Key, b: Key
      ensures KeyLeq(a, b) || KeyLeq(b, a)
    {
      LexTotal(a.agent, b.agent);
      LexTotal(a.session, b.session);
    }
    forall a: Key, b: Key, c: Key | KeyLeq(a, b) && KeyLeq(b, c)
      ensures KeyLeq(a, c)
    {
      KeyTransitive(a, b, c);
    }
  }

  lemma KeyTransitive(a: Key, b: Key, c: Key)
    requires KeyLeq(a, b) && KeyLeq(b, c)
    ensures KeyLeq(a, c)
  {
    hide LexLeq;
    if a.agent == b.agent == c.agent {
      LexTransitive(a.session, b.session, c.session);
    } else if a.agent != b.agent && b.agent != c.agent {
      LexTransitive(a.agent, b.agent, c.agent);
      if a.agent == c.agent { LexAntisymmetric(a.agent, b.agent); }
    }
  }

  lemma KeyAntisymmetric(a: Key, b: Key)
    requires KeyLeq(a, b) && KeyLeq(b, a)
    ensures a == b
  {
    hide LexLeq;
    if a.agent == b.agent {
      LexAntisymmetric(a.session, b.session);
    } else {
      LexAntisymmetric(a.agent, b.agent);
    }
  }

  method OrderedKeys(rows: Rows) returns (keys: seq<Key>)
    ensures Listing(keys, rows.Keys)
  {
    hide KeyLeq;
    KeyOrder();
    var rest := rows.Keys;
    keys := [];
    while rest != {}
      invariant rest <= rows.Keys
      invariant Listing(keys, rows.Keys - rest)
      decreases rest
    {
      var k :| k in rest;
      InsertEnumerates(k, keys, rows.Keys - rest, KeyLeq);
      keys := Insert(k, keys, KeyLeq);
      rest := rest - {k};
      assert rows.Keys - rest == (rows.Keys - (rest + {k})) + {k};
    }
  }

  // ---- Known fingerprints

  datatype Print = Print(len: nat, mtime: nat, bundle: Option<string>)

  function PrintOf(row: Row): Print
    requires HasPrint(row)
  {
    Print(row.len.value, row.mtime.value, row.bundle)
  }

  function Measured(s: Source): Print
    requires s.evidence.Scanned?
  {
    Print(s.evidence.len, s.evidence.mtime, s.evidence.bundle)
  }

  /** The fingerprint for `path` of the last of the first `n` keys that has one. */
  function LastPrint(rows: Rows, keys: seq<Key>, n: nat, path: string): Option<Print>
    requires n <= |keys| && forall k :: k in keys ==> k in rows
  {
    if n == 0 then None
    else
      var row := rows[keys[n - 1]];
      if HasPrint(row) && row.path == path then Some(PrintOf(row)) else LastPrint(rows, keys, n - 1, path)
  }

  lemma {:induction false} LastPrintAt(rows: Rows, keys: seq<Key>, n: nat, path: string) returns (i: nat)
    requires n <= |keys| && forall k :: k in keys ==> k in rows
    ensures match LastPrint(rows, keys, n, path)
            case Some(found) =>
              && i < n && HasPrint(rows[keys[i]]) && rows[keys[i]].path == path && found == PrintOf(rows[keys[i]])
              && (forall j :: i < j < n ==> !(HasPrint(rows[keys[j]]) && rows[keys[j]].path == path))
            case None => forall j :: 0 <= j < n ==> !(HasPrint(rows[keys[j]]) && rows[keys[j]].path == path)
    decreases n
  {
    hide HasPrint;
    if n == 0 {
      i := 0;
    } else if HasPrint(rows[keys[n - 1]]) && rows[keys[n - 1]].path == path {
      i := n - 1;
    } else {
      i := LastPrintAt(rows, keys, n - 1, path);
    }
  }

  /** The last fingerprint in key order decides what is known. */
  lemma LastPrintDecides(rows: Rows, keys: seq<Key>, s: Source)
    requires Listing(keys, rows.Keys)
    ensures Known(rows, s) <==> (s.evidence.Scanned? && LastPrint(rows, keys, |keys|, s.path) == Some(Measured(s)))
  {
    hide KeyLeq, LastPrint;
    var i := LastPrintAt(rows, keys, |keys|, s.path);
    match LastPrint(rows, keys, |keys|, s.path)
    case None =>
      forall k
        ensures !Owner(rows, s.path, k)
      {
        if k in rows { assert k in keys; }
      }
    case Some(found) =>
      ListedOwner(rows, keys, s.path, i);
      forall k | Owner(rows, s.path, k)
        ensures k == keys[i]
      {
        KeyAntisymmetric(k, keys[i]);
      }
  }

  lemma ListedOwner(rows: Rows, keys: seq<Key>, path: string, i: nat)
    requires Listing(keys, rows.Keys) && i < |keys|
    requires HasPrint(rows[keys[i]]) && rows[keys[i]].path == path
    requires forall j :: i < j < |keys| ==> !(HasPrint(rows[keys[j]]) && rows[keys[j]].path == path)
    ensures Owner(rows, path, keys[i])
  {
    hide KeyLeq, HasPrint;
    forall k | k in rows && HasPrint(rows[k]) && rows[k].path == path
      ensures KeyLeq(k, keys[i])
    {
      assert k in keys;
      var j :| 0 <= j < |keys| && keys[j] == k;
      if j == i { KeySelf(k); }
    }
  }

  lemma KeySelf(k: Key)
    ensures KeyLeq(k, k)
  {
    LexTotal(k.session, k.session);
  }

  predicate IsKnown(known: map<string, Print>, s: Source) {
    s.evidence.Scanned? && s.path in known && known[s.path] == Measured(s)
  }

  /** The path index of the catalog's fingerprints. */
  ghost predicate PathIndex(known: map<string, Print>, rows: Rows) {
    forall s: Source :: Known(rows, s) <==> IsKnown(known, s)
  }

  method KnownFingerprints(rows: Rows) returns (known: map<string, Print>)
    ensures PathIndex(known, rows)
  {
    hide KeyLeq, Known;
    var keys := OrderedKeys(rows);
    known := map[];
    for i := 0 to |keys|
      invariant forall path :: (if path in known then Some(known[path]) else None) == LastPrint(rows, keys, i, path)
    {
      var row := rows[keys[i]];
      if HasPrint(row) { known := known[row.path := PrintOf(row)]; }
    }
    forall s: Source { LastPrintDecides(rows, keys, s); }
  }

  // ---- Reattribution

  /** One row: skipped without a working directory, left alone when git names no project. */
  method ReattributeRow(row: Row, memo: RemoteMemo, git: CatalogMemo.World) returns (after: Row)
    modifies memo
    ensures after == Reattributed(row, Believed(old(memo.entries), git))
    ensures var believed := Believed(old(memo.entries), git);
            after == row.(project :=
                            if row.cwd.Some? && row.cwd.value != "" && Fresh(believed, row.cwd.value).Some?
                            then Some(ProjectSlug.CanonicalizeProjectSlug(Fresh(believed, row.cwd.value).value))
                            else row.project)
    ensures Believed(memo.entries, git) == Believed(old(memo.entries), git)
  {
    ReattributedMeans(row, Believed(memo.entries, git));
    hide CatalogMemo.Resolve, CatalogMemo.Fresh, CatalogMemo.Believed, ProjectSlug.CanonicalizeProjectSlug;
    after := row;
    if row.cwd.None? || row.cwd.value == "" { return; }
    ResolveBelieves(memo.Value(), git, row.cwd.value);
    var answer, _ := memo.ProjectFor(git, row.cwd.value);
    assert memo.Value().entries == memo.entries;
    if answer.Some? {
      var project := ProjectSlug.CanonicalizeProjectSlug(answer.value);
      if row.project != Some(project) { after := row.(project := Some(project)); }
    }
  }

  method ReattributeCatalogEntries(rows: Rows, memo: RemoteMemo, git: CatalogMemo.World)
    returns (after: Rows, changed: nat)
    modifies memo
    ensures var believed := Believed(old(memo.entries), git);
            && after == ReattributeAll(rows, believed) && changed == |Moved(rows, believed)|
            && Believed(memo.entries, git) == believed
            && after.Keys == rows.Keys && changed == |set k | k in rows && after[k] != rows[k]|
    ensures var believed := Believed(old(memo.entries), git);
            forall k :: k in rows ==>
              var row := rows[k];
              after[k] == row.(project :=
                                 if row.cwd.Some? && row.cwd.value != "" && Fresh(believed, row.cwd.value).Some?
                                 then Some(ProjectSlug.CanonicalizeProjectSlug(Fresh(believed, row.cwd.value).value))
                                 else row.project)
  {
    hide KeyLeq, CatalogMemo.Believed, Fresh, Reattributed, MovedAmong, Moved, ReattributeAll;
    var keys := OrderedKeys(rows);
    ghost var believed := Believed(memo.entries, git);
    NoneMoved(rows, believed);
    assert keys[..0] == [];
    after, changed := rows, 0;
    for i := 0 to |keys|
      invariant Believed(memo.entries, git) == believed
      invariant after.Keys == rows.Keys
      invariant forall j :: 0 <= j < |keys| ==>
                  after[keys[j]] == if j < i then Reattributed(rows[keys[j]], believed) else rows[keys[j]]
      invariant changed == |MovedAmong(rows, believed, keys[..i])|
    {
      OneMore(rows, believed, keys, i);
      var row := ReattributeRow(rows[keys[i]], memo, git);
      if row != rows[keys[i]] {
        after := after[keys[i] := row];
        changed := changed + 1;
      }
    }
    assert keys[..|keys|] == keys;
    AllMoved(rows, believed, keys);
    AllReattributed(rows, believed, keys, after);
    AllMeans(rows, believed);
  }

  lemma AllMeans(rows: Rows, git: CatalogMemo.World)
    ensures var after := ReattributeAll(rows, git);
            && Moved(rows, git) == (set k | k in rows && after[k] != rows[k])
            && forall k :: k in rows ==>
                 var row := rows[k];
                 after[k] == row.(project :=
                                    if row.cwd.Some? && row.cwd.value != "" && Fresh(git, row.cwd.value).Some?
                                    then Some(ProjectSlug.CanonicalizeProjectSlug(Fresh(git, row.cwd.value).value))
                                    else row.project)
  {
    forall k | k in rows { ReattributedMeans(rows[k], git); }
    hide Reattributed, Fresh, ProjectSlug.CanonicalizeProjectSlug;
  }

  lemma NoneMoved(rows: Rows, git: CatalogMemo.World)
    ensures MovedAmong(rows, git, []) == {}
  {
  }

  lemma AllMoved(rows: Rows, git: CatalogMemo.World, keys: seq<Key>)
    requires Listing(keys, rows.Keys)
    ensures MovedAmong(rows, git, keys) == Moved(rows, git)
  {
    hide Reattributed;
  }

  lemma AllReattributed(rows: Rows, git: CatalogMemo.World, keys: seq<Key>, after: Rows)
    requires Listing(keys, rows.Keys) && after.Keys == rows.Keys
    requires forall j :: 0 <= j < |keys| ==> after[keys[j]] == Reattributed(rows[keys[j]], git)
    ensures after == ReattributeAll(rows, git)
  {
    hide Reattributed;
    forall k | k in rows
      ensures after[k] == Reattributed(rows[k], git)
    {
      assert k in keys;
    }
  }

  function MovedAmong(rows: Rows, git: CatalogMemo.World, keys: seq<Key>): set<Key> {
    set k | k in keys && k in rows && Reattributed(rows[k], git) != rows[k]
  }

  lemma OneMore(rows: Rows, git: CatalogMemo.World, keys: seq<Key>, i: nat)
    requires i < |keys| && Distinct(keys) && keys[i] in rows
    ensures |MovedAmong(rows, git, keys[..i + 1])|
            == |MovedAmong(rows, git, keys[..i])|
               + if Reattributed(rows[keys[i]], git) != rows[keys[i]] then 1 else 0
  {
    hide Reattributed;
    var before, more := MovedAmong(rows, git, keys[..i]), MovedAmong(rows, git, keys[..i + 1]);
    assert keys[..i + 1] == keys[..i] + [keys[i]];
    assert keys[i] !in keys[..i];
    if Reattributed(rows[keys[i]], git) != rows[keys[i]] {
      assert more == before + {keys[i]};
    } else {
      assert more == before;
    }
  }

  // ---- The delta and the refresh

  /** The world with git as a memo sees it. */
  function WorldOf(w: CatalogRefresh.World, entries: map<string, MemoEntry>): CatalogRefresh.World {
    CatalogRefresh.World(w.sources, Believed(entries, w.git))
  }

  /** What a memo that agrees with git sees is the world itself. */
  lemma AgreeingMemoSeesWorld(w: CatalogRefresh.World, entries: map<string, MemoEntry>)
    ensures EntriesAgree(entries, w.git) <==> WorldOf(w, entries) == w
  {
    hide CatalogMemo.Believed, EntriesAgree;
    AgreesIffBelieves(entries, w.git);
  }

  method LiveDelta(rows: Rows, w: CatalogRefresh.World, cutoff: nat, memo: RemoteMemo)
    returns (changed: Rows, unadmitted: set<Key>)
    modifies memo
    ensures var seen := WorldOf(w, old(memo.entries));
            && changed == Changed(rows, seen, cutoff) && unadmitted == Unadmitted(rows, seen, cutoff)
            && WorldOf(w, memo.entries) == seen
  {
    hide Known, Reattributed, RowOf, CatalogMemo.Believed, Differs;
    ghost var seen := WorldOf(w, memo.entries);
    var known := KnownFingerprints(rows);
    var scan: Rows := map[];
    for i := 0 to |w.sources|
      invariant ReattributeAll(scan, seen.git) == Admit(rows, w.sources[..i], seen.git, cutoff)
    {
      var s := w.sources[i];
      assert w.sources[..i + 1][..i] == w.sources[..i];
      assert IsKnown(known, s) <==> Known(rows, s);
      if Hot(s, cutoff) && !IsKnown(known, s) {
        scan := scan[s.key := RowOf(s)];
      }
    }
    assert w.sources[..|w.sources|] == w.sources;
    var found, _ := ReattributeCatalogEntries(scan, memo, w.git);
    unadmitted := set k | k in found && k !in rows;
    changed := map k | k in found && (k !in rows || Differs(rows[k], found[k])) :: found[k];
  }

  lemma AllRefreshedAttributed(rows: Rows, w: CatalogRefresh.World, cutoff: nat)
    ensures var after := Refreshed(rows, w, cutoff);
            forall k, p :: k in after && after[k].cwd.Some? && after[k].cwd.value != ""
                           && Fresh(w.git, after[k].cwd.value) == Some(p) ==>
                             after[k].project == Some(ProjectSlug.CanonicalizeProjectSlug(p))
  {
    hide Refreshed, Fresh, ProjectSlug.CanonicalizeProjectSlug;
    forall k { RefreshedRowsAttributed(rows, w, cutoff, k); }
  }

  lemma RefreshedCases(rows: Rows, w: CatalogRefresh.World, cutoff: nat)
    ensures var changed := Changed(rows, w, cutoff);
            && (Quiet(rows, w, cutoff) <==> |changed| == 0 && |Moved(rows, w.git)| == 0)
            && Refreshed(rows, w, cutoff)
               == if Quiet(rows, w, cutoff) then rows else ReattributeAll(rows + changed, w.git)
  {
    hide Changed, Moved, ReattributeAll;
  }

  datatype Report = Report(present: bool, changed: nat, admitted: nat, reattributed: nat, total: nat)

  /** The two files of an AICX home the refresh works on. */
  class CatalogHome {
    var sessions: Option<Rows>
    var remotes: MemoFile

    /** The world as the memo file sees it. */
    function Seen(w: CatalogRefresh.World): CatalogRefresh.World
      reads this
    {
      WorldOf(w, LoadMemo(remotes).entries)
    }

    constructor (sessions: Option<Rows>, remotes: MemoFile)
      ensures this.sessions == sessions && this.remotes == remotes
    {
      this.sessions, this.remotes := sessions, remotes;
    }

    method LoadMemoFile() returns (memo: RemoteMemo)
      ensures fresh(memo) && memo.entries == LoadMemo(remotes).entries
    {
      memo := new RemoteMemo.Load(remotes);
      assert memo.entries == memo.Value().entries;
    }

    /** Persisting may fail without consequence. */
    method PersistMemoFile(memo: RemoteMemo)
      modifies this`remotes, memo
      ensures memo.entries == old(memo.entries)
      ensures LoadMemo(remotes).entries in {old(LoadMemo(remotes).entries), memo.entries}
    {
      var writable: bool := *;
      ghost var was := memo.Value();
      assert was.entries == memo.entries;
      remotes := memo.Persist(remotes, writable);
      assert memo.Value().entries == was.entries;
    }

    method LiveDeltaUncached(rows: Rows, w: CatalogRefresh.World, cutoff: nat)
      returns (changed: Rows, unadmitted: set<Key>)
      modifies this`remotes
      ensures Seen(w) == old(Seen(w))
      ensures changed == Changed(rows, Seen(w), cutoff) && unadmitted == Unadmitted(rows, Seen(w), cutoff)
    {
      hide Changed, Unadmitted, CatalogMemo.Believed, LoadMemo;
      var lookup := LoadMemoFile();
      changed, unadmitted := LiveDelta(rows, w, cutoff, lookup);
      PersistMemoFile(lookup);
    }

    /** One refresh. What it does is what the world as the memo file sees it calls for, and the file goes on seeing
        that world, whether or not the memo can be written. */
    method RefreshHot(w: CatalogRefresh.World, cutoff: nat) returns (report: Report)
      modifies this
      ensures Seen(w) == old(Seen(w))
      ensures old(sessions).None? ==> sessions == None && report == Report(false, 0, 0, 0, 0)
      ensures old(sessions).Some? ==>
                var rows, seen := old(sessions.value), old(Seen(w));
                && sessions == Some(Refreshed(rows, seen, cutoff))
                && report.present && report.total == |sessions.value|
                && report.changed == |Changed(rows, seen, cutoff)|
                && report.admitted == |Unadmitted(rows, seen, cutoff)|
                && (Quiet(rows, seen, cutoff) <==> report.changed == 0 && report.reattributed == 0)
                && (!Quiet(rows, seen, cutoff) ==>
                      report.reattributed == |Moved(rows + Changed(rows, seen, cutoff), seen.git)|)
      ensures old(sessions).Some? ==>
                var after, git := sessions.value, old(Seen(w)).git;
                forall k, p :: k in after && after[k].cwd.Some? && after[k].cwd.value != ""
                               && Fresh(git, after[k].cwd.value) == Some(p) ==>
                                 after[k].project == Some(ProjectSlug.CanonicalizeProjectSlug(p))
    {
      hide Fresh, ProjectSlug.CanonicalizeProjectSlug, Quiet, Refreshed, Merge, Reattributed;
      hide Changed, Moved, Unadmitted, CatalogMemo.Believed, LoadMemo, ReattributeAll;
      if sessions.None? { return Report(false, 0, 0, 0, 0); }
      var rows := sessions.value;
      RefreshedCases(rows, Seen(w), cutoff);
      AllRefreshedAttributed(rows, Seen(w), cutoff);
      var changed, unadmitted := LiveDeltaUncached(rows, w, cutoff);
      var memo := LoadMemoFile();
      var _, reattributed := ReattributeCatalogEntries(rows, memo, w.git);
      PersistMemoFile(memo);
      if |changed| == 0 && reattributed == 0 {
        return Report(true, 0, |unadmitted|, 0, |rows|);
      }
      var catalog := rows + changed;
      catalog, reattributed := ReattributeCatalogEntries(catalog, memo, w.git);
      PersistMemoFile(memo);
      sessions := Some(catalog);
      return Report(true, |changed|, |unadmitted|, reattributed, |catalog|);
    }
  }
}

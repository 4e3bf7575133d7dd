/** When repeated hot refreshes of an unchanging world stop finding work (src/catalog.rs).

    With one source per key they always do, after at most one refresh more than there are sources.
    One refresh is enough exactly when it takes away no row that hides another source; a catalog
    whose rows for scanned files sit under the keys those files yield always meets that. When
    several sources claim one key is the subject of `CatalogContest`. */
module CatalogFixpoint {
  import opened Ordering
  import opened Text
  import CatalogMemo
  import opened CatalogRefresh

  /** A source the scan passes over because the catalog holds its fingerprint. */
  ghost predicate Skipped(rows: Rows, s: Source, cutoff: nat) { Hot(s, cutoff) && Known(rows, s) }

  /** A skipped source stays skipped, or its own row needs no change. */
  ghost predicate StaysAnswered(rows: Rows, gone: set<Key>, s: Source, git: CatalogMemo.World) {
    Known(rows - gone, s) || Settled(ReattributeAll(rows, git), s, git)
  }

  lemma KnownIsScanned(rows: Rows, s: Source)
    requires Known(rows, s)
    ensures s.evidence.Scanned?
  {
  }

  lemma ChangedPathsAreForeign(rows: Rows, w: World, cutoff: nat, s: Source, k: Key)
    requires UniqueKeys(w.sources) && UniqueFiles(w.sources) && s in w.sources && Known(rows, s)
    requires k in Changed(rows, w, cutoff)
    ensures Changed(rows, w, cutoff)[k].path != s.path && k != s.key
  {
    hide Known, Changed, Settled, CatalogRefresh.Answer;
    KnownIsScanned(rows, s);
    ChangedHaveSources(rows, w, cutoff);
    var t :| t in w.sources && t.key == k && Selected(rows, t, cutoff);
    ChangedExactly(rows, w, cutoff, t);
    assert t != s;
  }

  lemma SameOwnersWithout(rows: Rows, changed: Rows, s: Source)
    requires forall k :: k in changed ==> changed[k].path != s.path
    ensures Known(rows + changed, s) <==> Known(rows - changed.Keys, s)
  {
    hide KeyLeq, HasPrint;
    var more, less := rows + changed, rows - changed.Keys;
    assert forall k :: k in less ==> k in more && more[k] == less[k];
    assert forall k :: k in more && more[k].path == s.path ==> k in less;
    forall k
      ensures Owner(more, s.path, k) <==> Owner(less, s.path, k)
    {
    }
    if Known(more, s) {
      var k :| Owner(more, s.path, k) && SamePrint(more[k], s);
      assert Owner(less, s.path, k) && SamePrint(less[k], s);
    }
    if Known(less, s) {
      var k :| Owner(less, s.path, k) && SamePrint(less[k], s);
      assert Owner(more, s.path, k) && SamePrint(more[k], s);
    }
  }

  lemma KnownAfter(rows: Rows, w: World, cutoff: nat, s: Source)
    requires UniqueKeys(w.sources) && UniqueFiles(w.sources) && s in w.sources && Known(rows, s)
    ensures Known(Refreshed(rows, w, cutoff), s) <==> Known(rows - Changed(rows, w, cutoff).Keys, s)
  {
    hide Known, Changed, Moved, ReattributeAll;
    var changed := Changed(rows, w, cutoff);
    forall k | k in changed { ChangedPathsAreForeign(rows, w, cutoff, s, k); }
    SameOwnersWithout(rows, changed, s);
    SameOwners(rows + changed, w.git, s);
    if Quiet(rows, w, cutoff) { assert rows - changed.Keys == rows; }
  }

  lemma SettledAfter(rows: Rows, w: World, cutoff: nat, s: Source)
    requires UniqueKeys(w.sources) && s in w.sources && Known(rows, s)
    ensures Settled(Refreshed(rows, w, cutoff), s, w.git) <==> Settled(ReattributeAll(rows, w.git), s, w.git)
  {
    hide Known, Changed, Reattributed, RowOf, Differs;
    ChangedExactly(rows, w, cutoff, s);
    if Quiet(rows, w, cutoff) {
      assert forall k :: k in rows ==> k !in Moved(rows, w.git);
      assert ReattributeAll(rows, w.git) == rows;
    }
  }

  /** With each key claimed by one source, and each scanned file's path by no other, one refresh reaches a fixed point
      if and only if every skipped source is still answered once the changed rows are taken out of the catalog. */
  lemma OneRefreshSuffices(rows: Rows, w: World, cutoff: nat)
    requires UniqueKeys(w.sources) && UniqueFiles(w.sources)
    ensures Quiet(Refreshed(rows, w, cutoff), w, cutoff)
            <==> forall s :: s in w.sources && Skipped(rows, s, cutoff)
                   ==> StaysAnswered(rows, Changed(rows, w, cutoff).Keys, s, w.git)
  {
    hide Known, Changed, Settled, Moved, Hot, Quiet, Refreshed, ReattributeAll;
    var next := Refreshed(rows, w, cutoff);
    RefreshedIsAttributed(rows, w, cutoff);
    QuietMeans(next, w, cutoff);
    forall s | s in w.sources
      ensures !(Selected(next, s, cutoff) && !Settled(next, s, w.git))
              <==> (Skipped(rows, s, cutoff) ==> StaysAnswered(rows, Changed(rows, w, cutoff).Keys, s, w.git))
    {
      if Known(rows, s) {
        KnownAfter(rows, w, cutoff, s);
        SettledAfter(rows, w, cutoff, s);
      } else if Selected(rows, s, cutoff) {
        RefreshSettles(rows, w, cutoff, s);
      }
    }
  }

  /** No row with the path of a scanned file sits under a key other than the one the file yields. */
  predicate OwnRows(rows: Rows, sources: seq<Source>) {
    forall k, s :: k in rows && s in sources && s.evidence.Scanned? && rows[k].path == s.path ==> k == s.key
  }

  lemma OwnRowStays(rows: Rows, w: World, cutoff: nat, s: Source)
    requires UniqueKeys(w.sources) && UniqueFiles(w.sources) && OwnRows(rows, w.sources)
    requires s in w.sources && Known(rows, s)
    ensures Known(rows - Changed(rows, w, cutoff).Keys, s)
  {
    hide Changed, KeyLeq, HasPrint, SamePrint;
    KnownIsScanned(rows, s);
    var changed := Changed(rows, w, cutoff);
    forall k | k in changed { ChangedPathsAreForeign(rows, w, cutoff, s, k); }
    var k :| Owner(rows, s.path, k) && SamePrint(rows[k], s);
    assert k == s.key;
    var less := rows - changed.Keys;
    assert k in less;
    assert Owner(less, s.path, k) && SamePrint(less[k], s);
  }

  /** From such a catalog one refresh always reaches the fixed point: the next one has no changed and no unadmitted
      row, reattribution moves nothing, and it leaves the catalog as it is. The property itself is kept. */
  lemma OwnRowsSettleAtOnce(rows: Rows, w: World, cutoff: nat)
    requires UniqueKeys(w.sources) && UniqueFiles(w.sources) && OwnRows(rows, w.sources)
    ensures var next := Refreshed(rows, w, cutoff);
            && Changed(next, w, cutoff) == map[] && Unadmitted(next, w, cutoff) == {} && Moved(next, w.git) == {}
            && Refreshed(next, w, cutoff) == next
            && OwnRows(next, w.sources)
  {
    hide Known, Changed, Moved, Settled, Hot, Unadmitted;
    var next := Refreshed(rows, w, cutoff);
    forall s | s in w.sources && Skipped(rows, s, cutoff)
      ensures StaysAnswered(rows, Changed(rows, w, cutoff).Keys, s, w.git)
    {
      OwnRowStays(rows, w, cutoff, s);
    }
    OneRefreshSuffices(rows, w, cutoff);
    QuietIsAdmitted(next, w, cutoff);
    RefreshKeepsOwnRows(rows, w, cutoff);
  }

  lemma RefreshKeepsOwnRows(rows: Rows, w: World, cutoff: nat)
    requires UniqueFiles(w.sources) && OwnRows(rows, w.sources)
    ensures OwnRows(Refreshed(rows, w, cutoff), w.sources)
  {
    hide Selected, Settled, Quiet, Admit, Differs, RowOf, CatalogRefresh.Answer;
    AdmitKeys(rows, w.sources, w.git, cutoff);
    var changed := Changed(rows, w, cutoff);
    forall k, s | k in changed && s in w.sources && s.evidence.Scanned? && changed[k].path == s.path
      ensures k == s.key
    {
      var t :| t in w.sources && t.key == k && Selected(rows, t, cutoff) && changed[k] == Reattributed(RowOf(t), w.git);
      RowKeepsPath(t, w.git);
      assert t.path == s.path;
      assert t == s;
    }
  }

  lemma RowKeepsPath(s: Source, git: CatalogMemo.World)
    ensures Reattributed(RowOf(s), git).path == s.path
  {
  }

  // ---- Convergence

  ghost function Unsettled(rows: Rows, w: World): set<Source> {
    set s | s in w.sources && !Settled(rows, s, w.git)
  }

  lemma UnsettledShrinks(rows: Rows, w: World, cutoff: nat)
    requires UniqueKeys(w.sources) && Changed(rows, w, cutoff) != map[]
    ensures |Unsettled(Refreshed(rows, w, cutoff), w)| < |Unsettled(rows, w)|
  {
    hide Changed, Settled, Selected, Refreshed;
    var next := Refreshed(rows, w, cutoff);
    var k :| k in Changed(rows, w, cutoff);
    ChangedHaveSources(rows, w, cutoff);
    var s :| s in w.sources && s.key == k && Selected(rows, s, cutoff) && !Settled(rows, s, w.git);
    RefreshSettles(rows, w, cutoff, s);
    forall t | t in Unsettled(next, w)
      ensures t in Unsettled(rows, w) - {s}
    {
      if Settled(rows, t, w.git) { RefreshSettles(rows, w, cutoff, t); }
    }
    SubsetSize(Unsettled(next, w), Unsettled(rows, w) - {s});
  }

  /** A refresh that only reattributes leaves nothing for the next one. */
  lemma AttributionSettles(rows: Rows, w: World, cutoff: nat)
    requires UniqueKeys(w.sources) && Changed(rows, w, cutoff) == map[]
    ensures Quiet(Refreshed(rows, w, cutoff), w, cutoff)
  {
    hide Known, Settled, Changed, Moved, Hot;
    var next := Refreshed(rows, w, cutoff);
    if !Quiet(rows, w, cutoff) {
      assert rows + Changed(rows, w, cutoff) == rows;
      RefreshedIsAttributed(rows, w, cutoff);
      forall s | s in w.sources && Selected(next, s, cutoff)
        ensures Settled(next, s, w.git)
      {
        SameOwners(rows, w.git, s);
        RefreshSettles(rows, w, cutoff, s);
      }
      QuietMeans(next, w, cutoff);
    }
  }

  lemma {:induction false} QuietWithin(rows: Rows, w: World, cutoff: nat) returns (n: nat)
    requires UniqueKeys(w.sources)
    ensures n <= |Unsettled(rows, w)| + 1
    ensures Quiet(Iterate(rows, w, cutoff, n), w, cutoff)
    decreases |Unsettled(rows, w)|
  {
    hide Settled, Changed, Moved, Unsettled;
    var next := Refreshed(rows, w, cutoff);
    if Quiet(rows, w, cutoff) {
      n := 0;
    } else if Changed(rows, w, cutoff) == map[] {
      AttributionSettles(rows, w, cutoff);
      n := 1;
      assert Iterate(next, w, cutoff, 0) == next;
    } else {
      UnsettledShrinks(rows, w, cutoff);
      var m := QuietWithin(next, w, cutoff);
      n := m + 1;
    }
  }

  lemma {:induction false} QuietStays(rows: Rows, w: World, cutoff: nat, n: nat)
    requires Quiet(rows, w, cutoff)
    ensures Iterate(rows, w, cutoff, n) == rows
    decreases n
  {
    hide Quiet;
    if n > 0 { QuietStays(Refreshed(rows, w, cutoff), w, cutoff, n - 1); }
  }

  lemma {:induction false} IterateAdds(rows: Rows, w: World, cutoff: nat, m: nat, n: nat)
    ensures Iterate(rows, w, cutoff, m + n) == Iterate(Iterate(rows, w, cutoff, m), w, cutoff, n)
    decreases m
  {
    hide Refreshed;
    if m > 0 { IterateAdds(Refreshed(rows, w, cutoff), w, cutoff, m - 1, n); }
  }

  lemma {:induction false} FewSources(sources: seq<Source>, some: set<Source>)
    requires forall s :: s in some ==> s in sources
    ensures |some| <= |sources|
    decreases |sources|
  {
    if sources == [] {
      assert some == {};
    } else {
      var rest := some - {sources[0]};
      FewSources(sources[1..], rest);
      SubsetSize(some, rest + {sources[0]});
    }
  }

  /** Any catalog converges: after one refresh more than there are sources, refreshing changes nothing ever again. */
  lemma RefreshConverges(rows: Rows, w: World, cutoff: nat, n: nat)
    requires UniqueKeys(w.sources) && n > |w.sources|
    ensures Quiet(Iterate(rows, w, cutoff, n), w, cutoff)
    ensures Iterate(rows, w, cutoff, n) == Iterate(rows, w, cutoff, |w.sources| + 1)
  {
    hide Quiet, Iterate;
    var m := QuietWithin(rows, w, cutoff);
    FewSources(w.sources, Unsettled(rows, w));
    var settled := Iterate(rows, w, cutoff, m);
    IterateAdds(rows, w, cutoff, m, n - m);
    QuietStays(settled, w, cutoff, n - m);
    IterateAdds(rows, w, cutoff, m, |w.sources| + 1 - m);
    QuietStays(settled, w, cutoff, |w.sources| + 1 - m);
  }

  /** Unique keys and paths alone do not make one refresh enough: a row left under an old key hides its source until
      another source takes that key. */
  lemma LeftoverRowNeedsTwo(rows: Rows, s: Source, t: Source, w: World, cutoff: nat)
    requires s.key != t.key && s.path != t.path && w.sources == [s, t]
    requires s.evidence.Scanned? && s.evidence.mtime >= cutoff && Hot(t, cutoff)
    requires rows.Keys == {t.key} && rows[t.key].path == s.path && SamePrint(rows[t.key], s)
    ensures !Quiet(Refreshed(rows, w, cutoff), w, cutoff)
  {
    hide CatalogRefresh.Answer, Quiet, Refreshed;
    var row := rows[t.key];
    LexTotal(t.key.session, t.key.session);
    assert KeyLeq(t.key, t.key);
    assert Owner(rows, s.path, t.key);
    assert s in w.sources && t in w.sources;
    ChangedExactly(rows, w, cutoff, t);
    assert t.key in Changed(rows, w, cutoff);
    assert Skipped(rows, s, cutoff);
    assert !StaysAnswered(rows, Changed(rows, w, cutoff).Keys, s, w.git);
    OneRefreshSuffices(rows, w, cutoff);
  }
}

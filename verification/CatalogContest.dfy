/** When several sources claim one session key (`refresh_hot`, src/catalog.rs).

    A scan passes over a file whose fingerprint is cataloged, so which claimant's row it yields
    depends on the catalog. The main result says exactly when refreshing such a world comes to
    rest: unless the last hot claimant of some key is a file the scan can pass over, and another
    hot source claims the key. */
module CatalogContest {
  import opened Text
  import CatalogMemo
  import opened CatalogRefresh
  import opened CatalogFixpoint

  /** A file whose time fits the catalog, so that its fingerprint can be recognised. */
  predicate CanBeSkipped(s: Source) { s.evidence.Scanned? && s.evidence.mtime < U64_RANGE }

  /** The last hot source in scan order that claims its key. */
  predicate IsLastHot(sources: seq<Source>, i: nat, cutoff: nat) {
    && i < |sources| && Hot(sources[i], cutoff)
    && forall j :: i < j < |sources| && Hot(sources[j], cutoff) ==> sources[j].key != sources[i].key
  }

  /** Some key's last hot claimant can be skipped, and another hot source claims the key. */
  ghost predicate Contested(sources: seq<Source>, cutoff: nat) {
    exists i: nat, j: nat :: ContestedBy(sources, cutoff, i, j)
  }

  predicate ContestedBy(sources: seq<Source>, cutoff: nat, i: nat, j: nat) {
    && j < i && IsLastHot(sources, i, cutoff) && CanBeSkipped(sources[i])
    && Hot(sources[j], cutoff) && sources[j].key == sources[i].key
  }

  /** The last source a scan reads for its key. */
  ghost predicate IsLastRead(rows: Rows, sources: seq<Source>, i: nat, cutoff: nat) {
    && i < |sources| && Selected(rows, sources[i], cutoff)
    && forall j :: i < j < |sources| && Selected(rows, sources[j], cutoff) ==> sources[j].key != sources[i].key
  }

  lemma {:induction false} LastReadWins(rows: Rows, sources: seq<Source>, git: CatalogMemo.World, cutoff: nat, i: nat)
    requires IsLastRead(rows, sources, i, cutoff)
    ensures var scan := Admit(rows, sources, git, cutoff);
            sources[i].key in scan && scan[sources[i].key] == Reattributed(RowOf(sources[i]), git)
    decreases |sources|
  {
    hide Selected, Reattributed, RowOf;
    var n := |sources| - 1;
    if i < n {
      assert forall j :: 0 <= j < n ==> sources[..n][j] == sources[j];
      LastReadWins(rows, sources[..n], git, cutoff, i);
    }
  }

  lemma {:induction false} LastReadExists(rows: Rows, sources: seq<Source>, cutoff: nat, i: nat) returns (m: nat)
    requires i < |sources| && Selected(rows, sources[i], cutoff)
    ensures i <= m && IsLastRead(rows, sources, m, cutoff) && sources[m].key == sources[i].key
    decreases |sources| - i
  {
    hide Selected;
    if j: nat :| i < j < |sources| && Selected(rows, sources[j], cutoff) && sources[j].key == sources[i].key {
      m := LastReadExists(rows, sources, cutoff, j);
    } else {
      m := i;
    }
  }

  lemma {:induction false} LastHotExists(sources: seq<Source>, cutoff: nat, i: nat) returns (m: nat)
    requires i < |sources| && Hot(sources[i], cutoff)
    ensures i <= m && IsLastHot(sources, m, cutoff) && sources[m].key == sources[i].key
    decreases |sources| - i
  {
    hide Hot;
    if j: nat :| i < j < |sources| && Hot(sources[j], cutoff) && sources[j].key == sources[i].key {
      m := LastHotExists(sources, cutoff, j);
    } else {
      m := i;
    }
  }

  /** A source whose row the catalog already holds right, under its own key, is known. */
  lemma SettledIsKnown(rows: Rows, sources: seq<Source>, s: Source, git: CatalogMemo.World)
    requires OwnRows(rows, sources) && s in sources && CanBeSkipped(s) && Settled(rows, s, git)
    ensures Known(rows, s)
  {
    hide CatalogRefresh.Answer, LexLeq;
    KeySelf(s.key);
    assert Owner(rows, s.path, s.key) && SamePrint(rows[s.key], s);
  }

  lemma KeySelf(k: Key)
    ensures KeyLeq(k, k)
  {
    LexTotal(k.session, k.session);
  }

  /** A known file is known through the row under its own key. */
  lemma KnownByOwnRow(rows: Rows, sources: seq<Source>, s: Source)
    requires OwnRows(rows, sources) && s in sources && Known(rows, s)
    ensures CanBeSkipped(s) && s.key in rows && rows[s.key].path == s.path && SamePrint(rows[s.key], s)
  {
    hide KeyLeq;
    var k :| Owner(rows, s.path, k) && SamePrint(rows[k], s);
  }

  lemma OwnPrintIsKnown(rows: Rows, sources: seq<Source>, s: Source)
    requires OwnRows(rows, sources) && s in sources && s.key in rows
    requires rows[s.key].path == s.path && SamePrint(rows[s.key], s)
    ensures Known(rows, s)
  {
    hide LexLeq;
    KeySelf(s.key);
    assert Owner(rows, s.path, s.key);
  }

  /** A contested key never rests: either its last hot claimant is read and not settled, or it is skipped and another
      claimant's row takes its place. */
  lemma ContestedNeverQuiet(rows: Rows, w: World, cutoff: nat, i: nat, j: nat)
    requires UniqueFiles(w.sources) && OwnRows(rows, w.sources) && ContestedBy(w.sources, cutoff, i, j)
    ensures !Quiet(rows, w, cutoff)
  {
    hide CatalogRefresh.Answer, Admit, Known, RowOf, OwnRows, Moved;
    var x, y := w.sources[i], w.sources[j];
    if Known(rows, x) {
      KnownByOwnRow(rows, w.sources, x);
      if Known(rows, y) { KnownByOwnRow(rows, w.sources, y); }
      var m := LastReadExists(rows, w.sources, cutoff, j);
      LastReadWins(rows, w.sources, w.git, cutoff, m);
      RowKeepsPath(w.sources[m], w.git);
      assert w.sources[m].path != x.path;
      assert x.key in Changed(rows, w, cutoff);
    } else {
      LastReadWins(rows, w.sources, w.git, cutoff, i);
      if Settled(rows, x, w.git) { SettledIsKnown(rows, w.sources, x, w.git); }
      assert x.key in Changed(rows, w, cutoff);
    }
  }

  /** A refresh settles the last source read for each key, whoever else claims it. */
  lemma LastReadSettles(rows: Rows, w: World, cutoff: nat, i: nat)
    requires IsLastRead(rows, w.sources, i, cutoff)
    ensures Settled(Refreshed(rows, w, cutoff), w.sources[i], w.git)
  {
    hide Selected, Reattributed, RowOf, Moved, Admit;
    var s := w.sources[i];
    LastReadWins(rows, w.sources, w.git, cutoff, i);
    var changed := Changed(rows, w, cutoff);
    assert s.key !in changed ==> Settled(rows, s, w.git);
    hide Differs, Changed;
    if !Quiet(rows, w, cutoff) {
      if s.key in changed {
        ReattributeTwice(RowOf(s), w.git);
      } else {
        SettledIsAttributed(rows, s, w.git);
      }
    }
  }

  /** A known file that alone claims its key stays known. */
  lemma SoleClaimantStaysKnown(rows: Rows, w: World, cutoff: nat, s: Source)
    requires UniqueFiles(w.sources) && OwnRows(rows, w.sources) && s in w.sources && Known(rows, s)
    requires forall t :: t in w.sources && Hot(t, cutoff) && t.key == s.key ==> t == s
    ensures Known(Refreshed(rows, w, cutoff), s)
  {
    hide Reattributed, RowOf, Moved, Admit, OwnRows, Known, Settled, Differs;
    var next := Refreshed(rows, w, cutoff);
    KnownByOwnRow(rows, w.sources, s);
    AdmitKeys(rows, w.sources, w.git, cutoff);
    assert s.key !in Changed(rows, w, cutoff);
    ReattributionKeepsPrint(rows[s.key], w.git, s);
    RefreshKeepsOwnRows(rows, w, cutoff);
    OwnPrintIsKnown(next, w.sources, s);
  }

  lemma ReattributionKeepsPrint(row: Row, git: CatalogMemo.World, s: Source)
    ensures Reattributed(row, git).path == row.path && (SamePrint(Reattributed(row, git), s) <==> SamePrint(row, s))
  {
  }

  /** The last source read after a refresh, if no key is contested, is settled by that refresh. */
  lemma UncontestedSettles(rows: Rows, w: World, cutoff: nat, m: nat)
    requires UniqueFiles(w.sources) && OwnRows(rows, w.sources) && !Contested(w.sources, cutoff)
    requires IsLastRead(Refreshed(rows, w, cutoff), w.sources, m, cutoff)
    ensures Settled(Refreshed(rows, w, cutoff), w.sources[m], w.git)
  {
    hide Refreshed, Settled, Known, OwnRows;
    var next := Refreshed(rows, w, cutoff);
    var s := w.sources[m];
    var i := LastHotExists(w.sources, cutoff, m);
    RefreshKeepsOwnRows(rows, w, cutoff);
    if m < i { assert !ContestedBy(w.sources, cutoff, i, m); }
    if Known(next, w.sources[i]) { KnownByOwnRow(next, w.sources, w.sources[i]); }
    assert m == i;
    if Known(rows, s) {
      KnownByOwnRow(rows, w.sources, s);
      assert forall j: nat :: !ContestedBy(w.sources, cutoff, m, j);
      forall t | t in w.sources && Hot(t, cutoff) && t.key == s.key
        ensures t == s
      {
        var j: nat :| j < |w.sources| && w.sources[j] == t;
        assert !ContestedBy(w.sources, cutoff, m, j);
      }
      SoleClaimantStaysKnown(rows, w, cutoff, s);
    } else {
      assert IsLastRead(rows, w.sources, m, cutoff);
      LastReadSettles(rows, w, cutoff, m);
    }
  }

  lemma UncontestedRests(rows: Rows, w: World, cutoff: nat)
    requires UniqueFiles(w.sources) && OwnRows(rows, w.sources) && !Contested(w.sources, cutoff)
    ensures Quiet(Refreshed(rows, w, cutoff), w, cutoff)
  {
    hide Refreshed, Selected, OwnRows, Contested, Reattributed, RowOf, Moved, Differs, Admit;
    var next := Refreshed(rows, w, cutoff);
    RefreshedIsAttributed(rows, w, cutoff);
    AdmitKeys(next, w.sources, w.git, cutoff);
    forall k
      ensures k !in Changed(next, w, cutoff)
    {
      if k in Changed(next, w, cutoff) {
        var s :| s in w.sources && s.key == k && Selected(next, s, cutoff);
        var p :| 0 <= p < |w.sources| && w.sources[p] == s;
        var m := LastReadExists(next, w.sources, cutoff, p);
        LastReadWins(next, w.sources, w.git, cutoff, m);
        UncontestedSettles(rows, w, cutoff, m);
      }
    }
    assert Changed(next, w, cutoff) == map[];
  }

  lemma {:induction false} IterateKeepsOwnRows(rows: Rows, w: World, cutoff: nat, n: nat)
    requires UniqueFiles(w.sources) && OwnRows(rows, w.sources)
    ensures OwnRows(Iterate(rows, w, cutoff, n), w.sources)
    decreases n
  {
    hide OwnRows, Refreshed;
    if n > 0 {
      RefreshKeepsOwnRows(rows, w, cutoff);
      IterateKeepsOwnRows(Refreshed(rows, w, cutoff), w, cutoff, n - 1);
    }
  }

  /** From a catalog whose rows for scanned files sit under those files' own keys, and with no scanned file sharing its
      path: refreshing comes to rest if and only if no key is contested, and then one refresh is enough. */
  lemma RestsIffUncontested(rows: Rows, w: World, cutoff: nat)
    requires UniqueFiles(w.sources) && OwnRows(rows, w.sources)
    ensures Quiet(Refreshed(rows, w, cutoff), w, cutoff) <==> !Contested(w.sources, cutoff)
    ensures (exists n: nat :: Quiet(Iterate(rows, w, cutoff, n), w, cutoff)) <==> !Contested(w.sources, cutoff)
  {
    hide OwnRows, Refreshed, Quiet, ContestedBy, UniqueFiles;
    var next := Refreshed(rows, w, cutoff);
    if Contested(w.sources, cutoff) {
      var i: nat, j: nat :| ContestedBy(w.sources, cutoff, i, j);
      RefreshKeepsOwnRows(rows, w, cutoff);
      ContestedNeverQuiet(next, w, cutoff, i, j);
      forall n: nat
        ensures !Quiet(Iterate(rows, w, cutoff, n), w, cutoff)
      {
        IterateKeepsOwnRows(rows, w, cutoff, n);
        ContestedNeverQuiet(Iterate(rows, w, cutoff, n), w, cutoff, i, j);
      }
    } else {
      UncontestedRests(rows, w, cutoff);
      assert Iterate(next, w, cutoff, 0) == next;
      assert Iterate(rows, w, cutoff, 1) == next;
    }
  }

  /** What the rows' own keys are for: a row left under another key can hide one of two rivals, and the contested world
      is at rest. */
  lemma LeftoverHidesRival(rows: Rows, x: Source, y: Source, other: Key, w: World, cutoff: nat)
    requires Rivals(x, y, cutoff) && w.sources == [x, y] && other != x.key && rows.Keys == {x.key, other}
    requires rows[x.key].path == x.path && SamePrint(rows[x.key], x)
    requires rows[other].path == y.path && SamePrint(rows[other], y)
    requires Moved(rows, w.git) == {}
    ensures Contested(w.sources, cutoff) && Quiet(rows, w, cutoff)
  {
    hide CatalogRefresh.Answer, LexLeq, Moved;
    assert ContestedBy(w.sources, cutoff, 1, 0);
    KeySelf(x.key);
    KeySelf(other);
    assert Owner(rows, x.path, x.key) && Owner(rows, y.path, other);
    assert Known(rows, x) && Known(rows, y);
    AdmitKeys(rows, w.sources, w.git, cutoff);
    assert Changed(rows, w, cutoff) == map[];
  }

  /** The catalog holds `x` under the key both sources claim, and no other row has either path. */
  predicate Holds(rows: Rows, x: Source, y: Source) {
    && x.key in rows && SamePrint(rows[x.key], x) && rows[x.key].path == x.path
    && forall k :: k in rows && k != x.key ==> rows[k].path != x.path && rows[k].path != y.path
  }

  /** Two scanned, hot sources with different paths and one key, their times within 64 bits. */
  predicate Rivals(x: Source, y: Source, cutoff: nat) {
    && x.key == y.key && x.path != y.path && x.evidence.Scanned? && y.evidence.Scanned?
    && cutoff <= x.evidence.mtime < U64_RANGE && cutoff <= y.evidence.mtime < U64_RANGE
  }

  lemma HeldIsKnown(rows: Rows, x: Source, y: Source, cutoff: nat)
    requires Rivals(x, y, cutoff) && Holds(rows, x, y)
    ensures Known(rows, x) && !Known(rows, y)
  {
    LexTotal(x.key.session, x.key.session);
    assert KeyLeq(x.key, x.key);
    assert Owner(rows, x.path, x.key);
  }

  /** Both rivals are sources, and no other source has their key or either path. */
  predicate OnlyRivals(sources: seq<Source>, x: Source, y: Source) {
    && x in sources && y in sources
    && forall s :: s in sources ==>
         s == x || s == y || (s.key != x.key && s.path != x.path && s.path != y.path)
  }

  /** Of the two rivals a scan reads the one the catalog does not hold. */
  lemma OnlyRivalRead(rows: Rows, x: Source, y: Source, w: World, cutoff: nat)
    requires Rivals(x, y, cutoff) && OnlyRivals(w.sources, x, y) && Known(rows, x) && !Known(rows, y)
    ensures var scan := Admit(rows, w.sources, w.git, cutoff);
            && y.key in scan && scan[y.key] == Reattributed(RowOf(y), w.git)
            && forall k :: k in scan && k != y.key ==> scan[k].path != x.path && scan[k].path != y.path
  {
    hide Known, RowOf, CatalogRefresh.Answer, Admit;
    AdmitKeys(rows, w.sources, w.git, cutoff);
    var scan := Admit(rows, w.sources, w.git, cutoff);
    assert Selected(rows, y, cutoff);
    assert y in w.sources && y.key in scan;
    forall k | k in scan
      ensures k == y.key ==> scan[k] == Reattributed(RowOf(y), w.git)
      ensures k != y.key ==> scan[k].path != x.path && scan[k].path != y.path
    {
      var s :| s in w.sources && s.key == k && Selected(rows, s, cutoff) && scan[k] == Reattributed(RowOf(s), w.git);
      RowKeepsPath(s, w.git);
    }
  }

  /** Each refresh replaces the row of one rival by the row of the other. */
  lemma RivalsSwap(rows: Rows, x: Source, y: Source, w: World, cutoff: nat)
    requires Rivals(x, y, cutoff) && Holds(rows, x, y) && OnlyRivals(w.sources, x, y)
    ensures !Quiet(rows, w, cutoff) && Holds(Refreshed(rows, w, cutoff), y, x)
  {
    hide Known, CatalogRefresh.Answer, Admit, OnlyRivals;
    HeldIsKnown(rows, x, y, cutoff);
    OnlyRivalRead(rows, x, y, w, cutoff);
    RowKeepsPath(y, w.git);
    assert y.key in Changed(rows, w, cutoff);
  }

  /** How a contested key behaves: when two hot files claim it alone and the catalog holds one of them and no leftover
      row of either, the row changes sides at every refresh. */
  lemma {:induction false} RivalsFlipForever(rows: Rows, x: Source, y: Source, w: World, cutoff: nat, n: nat)
    requires Rivals(x, y, cutoff) && Holds(rows, x, y) && OnlyRivals(w.sources, x, y)
    ensures !Quiet(Iterate(rows, w, cutoff, n), w, cutoff)
    decreases n
  {
    hide Holds, Quiet, Refreshed, OnlyRivals;
    RivalsSwap(rows, x, y, w, cutoff);
    if n > 0 {
      assert OnlyRivals(w.sources, y, x) by { RivalsEitherWay(w.sources, x, y); }
      RivalsFlipForever(Refreshed(rows, w, cutoff), y, x, w, cutoff, n - 1);
    }
  }

  lemma RivalsEitherWay(sources: seq<Source>, x: Source, y: Source)
    requires OnlyRivals(sources, x, y) && x.key == y.key
    ensures OnlyRivals(sources, y, x)
  {
  }
}

/** The readiness verdict of the catalog (`status` and `classify_readiness`, src/catalog.rs): counters filled in two
    loops, and what they say about the catalog and the live sources as sets. */
module CatalogStatus {
  import opened Ordering
  import opened Text
  import opened CatalogRefresh
  import HotRefresh

  const STATUS_SAMPLE_CAP: nat := 12

  datatype Readiness = Missing | Empty | Fresh | NeedsRebuild | SourcesMissing

  /** A line of the catalog file; keys may repeat. */
  datatype Entry = Entry(key: Key, row: Row)

  datatype Kind = Current | Stale | MissingSource | FingerprintUnknown | Unadmitted

  datatype Counts = Counts(current: nat, stale: nat, unadmitted: nat, missingSource: nat, fingerprintUnknown: nat)

  /** A judged catalog row or live source, as the samples show it. */
  datatype Item = Item(key: Key, kind: Kind)

  /** The live sources by key, and the size and time of every path that can be read. */
  datatype Live = Live(rows: Rows, prints: map<string, (nat, nat)>)

  datatype Report = Report(readiness: Readiness, counts: Counts, byAgent: map<string, Counts>, samples: seq<Item>)

  const ZERO := Counts(0, 0, 0, 0, 0)

  function Bump(c: Counts, kind: Kind): Counts {
    match kind
    case Current => c.(current := c.current + 1)
    case Stale => c.(stale := c.stale + 1)
    case MissingSource => c.(missingSource := c.missingSource + 1)
    case FingerprintUnknown => c.(fingerprintUnknown := c.fingerprintUnknown + 1)
    case Unadmitted => c.(unadmitted := c.unadmitted + 1)
  }

  function Of(c: Counts, kind: Kind): nat {
    match kind
    case Current => c.current
    case Stale => c.stale
    case MissingSource => c.missingSource
    case FingerprintUnknown => c.fingerprintUnknown
    case Unadmitted => c.unadmitted
  }

  function RebuildPressure(c: Counts): nat { c.stale + c.unadmitted + c.missingSource }

  function TotalCatalogClassified(c: Counts): nat {
    c.current + c.stale + c.missingSource + c.fingerprintUnknown
  }

  function LivePrint(key: Key, live: Live): Option<(nat, nat)> {
    if key in live.rows && live.rows[key].path in live.prints then Some(live.prints[live.rows[key].path]) else None
  }

  /** The kind of a catalog row, branch by branch. */
  function Judge(e: Entry, live: Live): Kind {
    match LivePrint(e.key, live)
    case Some((len, mtime)) =>
      if e.row.len == Some(len) && e.row.mtime == Some(mtime) && live.rows[e.key].bundle == e.row.bundle then Current
      else Stale
    case None => if e.key in live.rows then FingerprintUnknown else MissingSource
  }

  function ClassifyReadiness(present: bool, sessions: nat, live: nat, c: Counts): Readiness {
    if !present then Missing
    else if sessions == 0 && live == 0 then Empty
    else if c.missingSource > 0 && c.current == 0 && c.stale == 0 && c.unadmitted == 0 && live == 0 then SourcesMissing
    else if RebuildPressure(c) > 0 || c.fingerprintUnknown > 0 then NeedsRebuild
    else Fresh
  }

  // ---- The counters

  function Tally(items: seq<Item>): Counts {
    if items == [] then ZERO else Bump(Tally(items[..|items| - 1]), items[|items| - 1].kind)
  }

  predicate OfAgent(items: seq<Item>, agent: string) { exists i :: 0 <= i < |items| && items[i].key.agent == agent }

  function AgentItems(items: seq<Item>, agent: string): seq<Item> {
    if items == [] then []
    else
      var before := AgentItems(items[..|items| - 1], agent);
      var last := items[|items| - 1];
      if last.key.agent == agent then before + [last] else before
  }

  /** `byAgent` has a row for every agent with an item, and it tallies that agent's items. */
  ghost predicate TalliedByAgent(byAgent: map<string, Counts>, items: seq<Item>) {
    forall a :: (a in byAgent <==> OfAgent(items, a)) && (a in byAgent ==> byAgent[a] == Tally(AgentItems(items, a)))
  }

  function Problems(items: seq<Item>): seq<Item> {
    if items == [] then []
    else
      var before := Problems(items[..|items| - 1]);
      var last := items[|items| - 1];
      if last.kind != Current then before + [last] else before
  }

  function FirstSamples(items: seq<Item>): seq<Item> {
    var problems := Problems(items);
    if |problems| <= STATUS_SAMPLE_CAP then problems else problems[..STATUS_SAMPLE_CAP]
  }

  function JudgedRows(entries: seq<Entry>, live: Live): seq<Item> {
    Map((e: Entry) => Item(e.key, Judge(e, live)), entries)
  }

  function EntryKeys(entries: seq<Entry>): set<Key> { set e | e in entries :: e.key }

  /** The live keys the catalog lacks, in the order of `keys`. */
  function NewSources(keys: seq<Key>, admitted: set<Key>): seq<Item> {
    if keys == [] then []
    else
      var before := NewSources(keys[..|keys| - 1], admitted);
      var last := keys[|keys| - 1];
      if last in admitted then before else before + [Item(last, Unadmitted)]
  }

  /** Everything `status` counts. */
  function Items(entries: seq<Entry>, live: Live, keys: seq<Key>): seq<Item> {
    JudgedRows(entries, live) + NewSources(keys, EntryKeys(entries))
  }

  lemma OneMoreItem(items: seq<Item>, item: Item)
    ensures Tally(items + [item]) == Bump(Tally(items), item.kind)
    ensures forall a :: AgentItems(items + [item], a)
              == if item.key.agent == a then AgentItems(items, a) + [item] else AgentItems(items, a)
    ensures Problems(items + [item]) == if item.kind != Current then Problems(items) + [item] else Problems(items)
  {
    assert (items + [item])[..|items|] == items;
  }

  /** Counting one more item: global counter, the agent's counter, and a sample while there is room. */
  method CountItem(item: Item, ghost items: seq<Item>, counts: Counts, byAgent: map<string, Counts>, samples: seq<Item>)
    returns (counts': Counts, byAgent': map<string, Counts>, samples': seq<Item>)
    requires counts == Tally(items) && TalliedByAgent(byAgent, items) && samples == FirstSamples(items)
    ensures counts' == Tally(items + [item]) && TalliedByAgent(byAgent', items + [item])
    ensures samples' == FirstSamples(items + [item])
  {
    hide Tally, AgentItems, Problems, Bump;
    OneMoreItem(items, item);
    counts' := Bump(counts, item.kind);
    var agent := item.key.agent;
    var agentCounts := if agent in byAgent then byAgent[agent] else ZERO;
    AgentCounted(items, item, byAgent);
    byAgent' := byAgent[agent := Bump(agentCounts, item.kind)];
    samples' := samples;
    if item.kind != Current && |samples| < STATUS_SAMPLE_CAP { samples' := samples + [item]; }
  }

  lemma OneMoreAgent(items: seq<Item>, item: Item, a: string)
    ensures OfAgent(items + [item], a) <==> OfAgent(items, a) || a == item.key.agent
  {
    var more := items + [item];
    assert more[|items|] == item;
    assert forall i :: 0 <= i < |items| ==> more[i] == items[i];
  }

  lemma AgentCounted(items: seq<Item>, item: Item, byAgent: map<string, Counts>)
    requires TalliedByAgent(byAgent, items)
    ensures var agent := item.key.agent;
            var before := if agent in byAgent then byAgent[agent] else ZERO;
            TalliedByAgent(byAgent[agent := Bump(before, item.kind)], items + [item])
  {
    hide Tally, AgentItems, Bump, OfAgent;
    OneMoreItem(items, item);
    forall a { OneMoreAgent(items, item, a); }
    var agent := item.key.agent;
    if agent !in byAgent { NoItems(items, agent); }
    OneMoreItem(AgentItems(items, agent), item);
  }

  lemma {:induction false} NoItems(items: seq<Item>, agent: string)
    requires !OfAgent(items, agent)
    ensures AgentItems(items, agent) == [] && Tally(AgentItems(items, agent)) == ZERO
  {
    if items != [] { NoItems(items[..|items| - 1], agent); }
  }

  /** The report for a catalog file, `None` if there is none, with `keys` listing the live keys in order. */
  ghost predicate Reports(report: Report, catalog: Option<seq<Entry>>, live: Live, keys: seq<Key>) {
    var entries := if catalog.Some? then catalog.value else [];
    var items := Items(entries, live, keys);
    && HotRefresh.Listing(keys, live.rows.Keys)
    && report.counts == Tally(items) && TalliedByAgent(report.byAgent, items)
    && report.samples == FirstSamples(items)
    && report.readiness == ClassifyReadiness(catalog.Some?, |entries|, |live.rows|, Tally(items))
  }

  /** The counters, by agent and the samples after `items`. */
  ghost predicate Counted(counts: Counts, byAgent: map<string, Counts>, samples: seq<Item>, items: seq<Item>) {
    counts == Tally(items) && TalliedByAgent(byAgent, items) && samples == FirstSamples(items)
  }

  method CountRows(entries: seq<Entry>, live: Live)
    returns (counts: Counts, byAgent: map<string, Counts>, samples: seq<Item>, catalogKeys: set<Key>)
    ensures Counted(counts, byAgent, samples, JudgedRows(entries, live)) && catalogKeys == EntryKeys(entries)
  {
    hide Tally, AgentItems, Problems, TalliedByAgent, FirstSamples, Judge;
    counts, byAgent, samples, catalogKeys := ZERO, map[], [], {};
    NothingCounted();
    for i := 0 to |entries|
      invariant Counted(counts, byAgent, samples, JudgedRows(entries[..i], live))
      invariant catalogKeys == EntryKeys(entries[..i])
    {
      var e := entries[i];
      assert entries[..i + 1] == entries[..i] + [e];
      catalogKeys := catalogKeys + {e.key};
      var item := Item(e.key, Judge(e, live));
      assert JudgedRows(entries[..i + 1], live) == JudgedRows(entries[..i], live) + [item];
      counts, byAgent, samples := CountItem(item, JudgedRows(entries[..i], live), counts, byAgent, samples);
    }
    assert entries[..|entries|] == entries;
  }

  method Status(catalog: Option<seq<Entry>>, live: Live) returns (report: Report)
    ensures exists keys :: Reports(report, catalog, live, keys)
  {
    hide Tally, AgentItems, Problems, TalliedByAgent, ClassifyReadiness, FirstSamples, JudgedRows, EntryKeys;
    var entries := if catalog.Some? then catalog.value else [];
    var counts, byAgent, samples, catalogKeys := CountRows(entries, live);
    var liveKeys := HotRefresh.OrderedKeys(live.rows);
    ghost var judged := JudgedRows(entries, live);
    assert judged + NewSources([], catalogKeys) == judged;
    for i := 0 to |liveKeys|
      invariant Counted(counts, byAgent, samples, judged + NewSources(liveKeys[..i], catalogKeys))
    {
      ghost var before := judged + NewSources(liveKeys[..i], catalogKeys);
      assert liveKeys[..i + 1][..i] == liveKeys[..i];
      if liveKeys[i] in catalogKeys { continue; }
      var item := Item(liveKeys[i], Unadmitted);
      assert judged + NewSources(liveKeys[..i + 1], catalogKeys) == before + [item];
      counts, byAgent, samples := CountItem(item, before, counts, byAgent, samples);
    }
    assert liveKeys[..|liveKeys|] == liveKeys;
    report := Report(ClassifyReadiness(catalog.Some?, |entries|, |live.rows|, counts), counts, byAgent, samples);
    assert Reports(report, catalog, live, liveKeys);
  }

  lemma NothingCounted()
    ensures Tally([]) == ZERO && TalliedByAgent(map[], []) && FirstSamples([]) == []
  {
  }

  // ---- What the counters mean

  /** A row agrees with the live side when its own session is live, readable, and of the recorded size, time and
      bundle. */
  predicate Agrees(e: Entry, live: Live) {
    && e.key in live.rows && live.rows[e.key].path in live.prints
    && e.row.len == Some(live.prints[live.rows[e.key].path].0)
    && e.row.mtime == Some(live.prints[live.rows[e.key].path].1)
    && e.row.bundle == live.rows[e.key].bundle
  }

  lemma {:induction false} TallyZero(items: seq<Item>, kind: Kind)
    ensures Of(Tally(items), kind) == 0 <==> forall i :: 0 <= i < |items| ==> items[i].kind != kind
  {
    if items != [] {
      TallyZero(items[..|items| - 1], kind);
      assert forall i :: 0 <= i < |items| - 1 ==> items[i] == items[..|items| - 1][i];
    }
  }

  lemma {:induction false} TallyAppend(a: seq<Item>, b: seq<Item>)
    ensures forall kind :: Of(Tally(a + b), kind) == Of(Tally(a), kind) + Of(Tally(b), kind)
    decreases |b|
  {
    if b == [] {
      assert a + b == a;
    } else {
      var n := |b| - 1;
      TallyAppend(a, b[..n]);
      assert (a + b)[..|a + b| - 1] == a + b[..n];
      assert (a + b)[|a + b| - 1] == b[n];
    }
  }

  lemma {:induction false} RowsAreClassified(items: seq<Item>)
    requires forall i :: 0 <= i < |items| ==> items[i].kind != Unadmitted
    ensures TotalCatalogClassified(Tally(items)) == |items| && Tally(items).unadmitted == 0
  {
    if items != [] { RowsAreClassified(items[..|items| - 1]); }
  }

  ghost function Lacking(keys: seq<Key>, admitted: set<Key>): set<Key> { set k | k in keys && k !in admitted }

  lemma OneMoreLacking(keys: seq<Key>, k: Key, admitted: set<Key>)
    requires k !in keys
    ensures |Lacking(keys + [k], admitted)| == |Lacking(keys, admitted)| + if k in admitted then 0 else 1
  {
    var before, all := Lacking(keys, admitted), Lacking(keys + [k], admitted);
    if k in admitted {
      assert all == before;
    } else {
      assert all == before + {k};
    }
  }

  lemma {:induction false} NewAreUnadmitted(keys: seq<Key>, admitted: set<Key>)
    requires Distinct(keys)
    ensures var added := NewSources(keys, admitted);
            TotalCatalogClassified(Tally(added)) == 0 && Tally(added).unadmitted == |Lacking(keys, admitted)|
    decreases |keys|
  {
    hide Tally, Lacking;
    assert Tally([]) == ZERO by { NothingCounted(); }
    if keys == [] {
      assert Lacking(keys, admitted) == {} by { LacksNothing(admitted); }
    } else {
      var before, last := keys[..|keys| - 1], keys[|keys| - 1];
      NewAreUnadmitted(before, admitted);
      assert keys == before + [last];
      OneMoreLacking(before, last, admitted);
      OneMoreItem(NewSources(before, admitted), Item(last, Unadmitted));
    }
  }

  lemma LacksNothing(admitted: set<Key>)
    ensures Lacking([], admitted) == {}
  {
  }

  /** Every catalog row falls into exactly one of four kinds, and the fifth counter is the number of live keys the
      catalog lacks. */
  lemma CountsAddUp(entries: seq<Entry>, live: Live, keys: seq<Key>)
    requires HotRefresh.Listing(keys, live.rows.Keys)
    ensures TotalCatalogClassified(Tally(Items(entries, live, keys))) == |entries|
    ensures Tally(Items(entries, live, keys)).unadmitted == |live.rows.Keys - EntryKeys(entries)|
  {
    hide Tally, Bump, EntryKeys, NewSources;
    var rows, added := JudgedRows(entries, live), NewSources(keys, EntryKeys(entries));
    TallyAppend(rows, added);
    RowsAreClassified(rows);
    NewAreUnadmitted(keys, EntryKeys(entries));
    assert Lacking(keys, EntryKeys(entries)) == live.rows.Keys - EntryKeys(entries);
    forall kind
      ensures Of(Tally(rows + added), kind) == Of(Tally(rows), kind) + Of(Tally(added), kind)
    {
    }
    assert Of(Tally(rows + added), Current) == Of(Tally(rows), Current) + Of(Tally(added), Current);
    assert Of(Tally(rows + added), Stale) == Of(Tally(rows), Stale) + Of(Tally(added), Stale);
    assert Of(Tally(rows + added), MissingSource) == Of(Tally(rows), MissingSource) + Of(Tally(added), MissingSource);
    assert Of(Tally(rows + added), FingerprintUnknown)
        == Of(Tally(rows), FingerprintUnknown) + Of(Tally(added), FingerprintUnknown);
    assert Of(Tally(rows + added), Unadmitted) == Of(Tally(rows), Unadmitted) + Of(Tally(added), Unadmitted);
  }

  /** One kind, summed over the agents listed. */
  function AgentsTotal(byAgent: map<string, Counts>, agents: seq<string>, kind: Kind): nat {
    if agents == [] then 0
    else (if agents[0] in byAgent then Of(byAgent[agents[0]], kind) else 0) + AgentsTotal(byAgent, agents[1..], kind)
  }

  function ItemsTotal(items: seq<Item>, agents: seq<string>, kind: Kind): nat {
    if agents == [] then 0 else Of(Tally(AgentItems(items, agents[0])), kind) + ItemsTotal(items, agents[1..], kind)
  }

  lemma {:induction false} OneMoreTotal(agents: seq<string>, items: seq<Item>, item: Item, kind: Kind)
    requires Distinct(agents)
    ensures ItemsTotal(items + [item], agents, kind)
            == ItemsTotal(items, agents, kind) + if item.kind == kind && item.key.agent in agents then 1 else 0
    decreases |agents|
  {
    hide Tally, AgentItems;
    if agents != [] {
      OneMoreTotal(agents[1..], items, item, kind);
      OneMoreItem(items, item);
      OneMoreItem(AgentItems(items, agents[0]), item);
      assert agents[0] !in agents[1..];
    }
  }

  lemma {:induction false} NothingToTotal(agents: seq<string>, kind: Kind)
    ensures ItemsTotal([], agents, kind) == 0
    decreases |agents|
  {
    if agents != [] { NothingToTotal(agents[1..], kind); }
  }

  lemma {:induction false} ItemsTotalIsTally(agents: seq<string>, items: seq<Item>, kind: Kind)
    requires Distinct(agents) && forall a :: OfAgent(items, a) ==> a in agents
    ensures ItemsTotal(items, agents, kind) == Of(Tally(items), kind)
    decreases |items|
  {
    hide AgentItems, ItemsTotal;
    if items == [] {
      NothingToTotal(agents, kind);
    } else {
      var before, last := items[..|items| - 1], items[|items| - 1];
      assert items == before + [last];
      assert forall i :: 0 <= i < |before| ==> before[i] == items[i];
      assert OfAgent(items, last.key.agent);
      ItemsTotalIsTally(agents, before, kind);
      OneMoreTotal(agents, before, last, kind);
    }
  }

  lemma {:induction false} SameTotals(byAgent: map<string, Counts>, items: seq<Item>, agents: seq<string>, kind: Kind)
    requires TalliedByAgent(byAgent, items) && forall a :: a in agents ==> a in byAgent
    ensures AgentsTotal(byAgent, agents, kind) == ItemsTotal(items, agents, kind)
    decreases |agents|
  {
    hide Tally, AgentItems, OfAgent;
    if agents != [] { SameTotals(byAgent, items, agents[1..], kind); }
  }

  /** The per-agent counters of every kind sum to the global counter. */
  lemma AgentsSumToTotal(byAgent: map<string, Counts>, items: seq<Item>, agents: seq<string>, kind: Kind)
    requires TalliedByAgent(byAgent, items)
    requires Distinct(agents) && forall a :: a in agents <==> a in byAgent
    ensures AgentsTotal(byAgent, agents, kind) == Of(Tally(items), kind)
  {
    hide Tally, AgentItems, OfAgent, AgentsTotal, ItemsTotal;
    SameTotals(byAgent, items, agents, kind);
    ItemsTotalIsTally(agents, items, kind);
  }

  predicate AllAgree(entries: seq<Entry>, live: Live) {
    forall i :: 0 <= i < |entries| ==> Agrees(entries[i], live)
  }

  /** What each verdict says about the two sides. */
  ghost predicate VerdictMeans(verdict: Readiness, present: bool, entries: seq<Entry>, live: Live) {
    match verdict
    case Missing => !present
    case Empty => present && entries == [] && live.rows == map[]
    case SourcesMissing => present && entries != [] && live.rows == map[]
    case Fresh =>
      present && entries != [] && live.rows.Keys == EntryKeys(entries) && AllAgree(entries, live)
    case NeedsRebuild =>
      present && live.rows != map[] && !(live.rows.Keys == EntryKeys(entries) && AllAgree(entries, live))
  }

  lemma JudgeMeans(e: Entry, live: Live)
    ensures Judge(e, live) == Current <==> Agrees(e, live)
    ensures Judge(e, live) == MissingSource <==> e.key !in live.rows
    ensures Judge(e, live) == FingerprintUnknown <==> e.key in live.rows && live.rows[e.key].path !in live.prints
    ensures Judge(e, live) == Stale
            <==> e.key in live.rows && live.rows[e.key].path in live.prints && !Agrees(e, live)
  {
  }

  lemma JudgedKinds(entries: seq<Entry>, live: Live, keys: seq<Key>, kind: Kind)
    requires HotRefresh.Listing(keys, live.rows.Keys) && kind != Unadmitted
    ensures Of(Tally(Items(entries, live, keys)), kind) == 0
            <==> forall i :: 0 <= i < |entries| ==> Judge(entries[i], live) != kind
  {
    hide Tally, EntryKeys, NewSources, Judge;
    var rows, added := JudgedRows(entries, live), NewSources(keys, EntryKeys(entries));
    TallyAppend(rows, added);
    TallyZero(rows, kind);
    NewAreUnadmitted(keys, EntryKeys(entries));
    assert Of(Tally(added), kind) == 0;
  }

  lemma NoneUnadmitted(entries: seq<Entry>, live: Live, keys: seq<Key>)
    requires HotRefresh.Listing(keys, live.rows.Keys)
    ensures Tally(Items(entries, live, keys)).unadmitted == 0 <==> live.rows.Keys <= EntryKeys(entries)
  {
    hide Tally, EntryKeys, NewSources;
    CountsAddUp(entries, live, keys);
    if live.rows.Keys <= EntryKeys(entries) {
      assert live.rows.Keys - EntryKeys(entries) == {};
    } else {
      var k :| k in live.rows.Keys && k !in EntryKeys(entries);
      assert k in live.rows.Keys - EntryKeys(entries);
    }
  }

  lemma AgreeCounts(entries: seq<Entry>, live: Live, keys: seq<Key>)
    requires HotRefresh.Listing(keys, live.rows.Keys)
    ensures var c := Tally(Items(entries, live, keys));
            AllAgree(entries, live) <==> c.stale == 0 && c.missingSource == 0 && c.fingerprintUnknown == 0
    ensures AllAgree(entries, live) ==> EntryKeys(entries) <= live.rows.Keys
  {
    hide Tally, Items, Judge, Agrees;
    JudgedKinds(entries, live, keys, Stale);
    JudgedKinds(entries, live, keys, MissingSource);
    JudgedKinds(entries, live, keys, FingerprintUnknown);
    forall i | 0 <= i < |entries|
      ensures Agrees(entries[i], live)
              <==> Judge(entries[i], live) != Stale && Judge(entries[i], live) != MissingSource
                   && Judge(entries[i], live) != FingerprintUnknown
      ensures Agrees(entries[i], live) ==> entries[i].key in live.rows
    {
      AgreesOrNot(entries[i], live);
    }
  }

  lemma AgreesOrNot(e: Entry, live: Live)
    ensures Agrees(e, live)
            <==> Judge(e, live) != Stale && Judge(e, live) != MissingSource && Judge(e, live) != FingerprintUnknown
    ensures Agrees(e, live) ==> e.key in live.rows
  {
  }

  lemma NothingLiveCounts(entries: seq<Entry>, live: Live, keys: seq<Key>)
    requires HotRefresh.Listing(keys, live.rows.Keys) && live.rows == map[]
    ensures var c := Tally(Items(entries, live, keys));
            c.current == 0 && c.stale == 0 && c.unadmitted == 0 && (entries != [] ==> c.missingSource > 0)
  {
    hide Tally, Items;
    JudgedKinds(entries, live, keys, Current);
    JudgedKinds(entries, live, keys, Stale);
    JudgedKinds(entries, live, keys, MissingSource);
    NoneUnadmitted(entries, live, keys);
    assert entries != [] ==> Judge(entries[0], live) == MissingSource;
  }

  lemma SomeKeys(entries: seq<Entry>)
    ensures EntryKeys(entries) == {} <==> entries == []
  {
    if entries != [] { assert entries[0] in entries && entries[0].key in EntryKeys(entries); }
  }

  /** The verdict computed from the counters is the one its set-level meaning calls for, and no other. */
  lemma VerdictIsExact(present: bool, entries: seq<Entry>, live: Live, keys: seq<Key>)
    requires HotRefresh.Listing(keys, live.rows.Keys)
    ensures forall verdict :: VerdictMeans(verdict, present, entries, live)
              <==> verdict == ClassifyReadiness(present, |entries|, |live.rows|, Tally(Items(entries, live, keys)))
  {
    hide Tally, Items, AllAgree, EntryKeys, HotRefresh.Listing;
    AgreeCounts(entries, live, keys);
    NoneUnadmitted(entries, live, keys);
    SomeKeys(entries);
    assert |live.rows| == 0 <==> live.rows == map[];
    if live.rows == map[] { NothingLiveCounts(entries, live, keys); }
  }
}

/** Keyed merging of intent candidates and task events (src/intents.rs).

    Both passes fold the candidates of one key into an accumulator. A candidate's provenance fields
    travel together as one bundle; a task's bundle also says whether it is open. */
module IntentMerge {
  import opened Ordering
  import opened Text

  datatype IntentKind = Decision | Intent | Outcome | Task

  function SortRank(k: IntentKind): nat {
    match k
    case Decision => 0
    case Intent => 1
    case Outcome => 2
    case Task => 3
  }

  /** The fields a merge replaces all together. */
  datatype Bundle = Bundle(project: string, agent: string, date: string, sessionId: string, sourceChunk: string,
                           timestamp: Option<string>, provenance: Option<string>, source: Option<string>, honesty: string)

  datatype TaskBundle = TaskBundle(record: Bundle, isOpen: bool)

  datatype Candidate<B> = Candidate(kind: IntentKind, summary: string, context: Option<string>,
                                    evidence: seq<string>, bundle: B, confidence: nat, time: int)

  function ContextLen(c: Option<string>): nat {
    match c
    case None => 0
    case Some(s) => ByteLen(s)
  }

  // One merge

  function NormSet(items: seq<string>, norm: string -> string): set<string> {
    set i | 0 <= i < |items| :: norm(items[i])
  }

  /** Appends the additions whose normal form has not been seen, in order. */
  function MergedEvidence(existing: seq<string>, additions: seq<string>, norm: string -> string): seq<string>
    decreases |additions|
  {
    if additions == [] then existing
    else if norm(additions[0]) in NormSet(existing, norm) then MergedEvidence(existing, additions[1..], norm)
    else MergedEvidence(existing + [additions[0]], additions[1..], norm)
  }

  /** The loop builds its seen-set once and keeps it in step with the list. */
  method MergeEvidence(existing: seq<string>, additions: seq<string>, norm: string -> string)
    returns (merged: seq<string>)
    ensures merged == MergedEvidence(existing, additions, norm)
  {
    hide MergedEvidence;
    merged := existing;
    var seen := NormSet(existing, norm);
    for i := 0 to |additions|
      invariant seen == NormSet(merged, norm)
      invariant MergedEvidence(merged, additions[i..], norm) == MergedEvidence(existing, additions, norm)
    {
      EvidenceStep(merged, additions[i..], norm);
      assert additions[i..][1..] == additions[i + 1..];
      var key := norm(additions[i]);
      if key !in seen {
        NormSetSnoc(merged, additions[i], norm);
        seen := seen + {key};
        merged := merged + [additions[i]];
      }
    }
    EvidenceEnd(merged, norm);
    assert additions[|additions|..] == [];
  }

  lemma EvidenceStep(existing: seq<string>, additions: seq<string>, norm: string -> string)
    requires additions != []
    ensures MergedEvidence(existing, additions, norm)
            == MergedEvidence(if norm(additions[0]) in NormSet(existing, norm) then existing else existing + [additions[0]],
                              additions[1..], norm)
  {
  }

  lemma EvidenceEnd(existing: seq<string>, norm: string -> string)
    ensures MergedEvidence(existing, [], norm) == existing
  {
  }

  lemma NormSetSnoc(items: seq<string>, x: string, norm: string -> string)
    ensures NormSet(items + [x], norm) == NormSet(items, norm) + {norm(x)}
  {
    var all := items + [x];
    forall y ensures y in NormSet(all, norm) <==> y in NormSet(items, norm) + {norm(x)} {
      if y in NormSet(items, norm) {
        var i :| 0 <= i < |items| && norm(items[i]) == y;
        assert all[i] == items[i];
      }
      if y == norm(x) { assert all[|items|] == x; }
    }
  }

  predicate Supplants<B>(existing: Candidate<B>, incoming: Candidate<B>, confidence: nat) {
    incoming.time > existing.time || (incoming.time == existing.time && incoming.confidence >= confidence)
  }

  /** Merging an incoming candidate. The tie test reads the confidence already raised to the maximum. */
  function Merged<B>(existing: Candidate<B>, incoming: Candidate<B>, norm: string -> string): Candidate<B> {
    var confidence := if incoming.confidence > existing.confidence then incoming.confidence else existing.confidence;
    var takes := Supplants(existing, incoming, confidence);
    Candidate(existing.kind,
              if ByteLen(incoming.summary) > ByteLen(existing.summary) then incoming.summary else existing.summary,
              if ContextLen(incoming.context) > ContextLen(existing.context) then incoming.context else existing.context,
              MergedEvidence(existing.evidence, incoming.evidence, norm),
              if takes then incoming.bundle else existing.bundle,
              confidence,
              if takes then incoming.time else existing.time)
  }

  /** `merge_candidate` and `merge_task`: the same updates in the same order. */
  method MergeInto<B>(existing: Candidate<B>, incoming: Candidate<B>, norm: string -> string)
    returns (acc: Candidate<B>)
    ensures acc == Merged(existing, incoming, norm)
  {
    hide ByteLen, ContextLen, MergedEvidence;
    acc := existing;
    var evidence := MergeEvidence(acc.evidence, incoming.evidence, norm);
    acc := acc.(evidence := evidence);
    if ContextLen(incoming.context) > ContextLen(acc.context) {
      acc := acc.(context := incoming.context);
    }
    if ByteLen(incoming.summary) > ByteLen(acc.summary) {
      acc := acc.(summary := incoming.summary);
    }
    if incoming.confidence > acc.confidence {
      acc := acc.(confidence := incoming.confidence);
    }
    if incoming.time > acc.time || (incoming.time == acc.time && incoming.confidence >= acc.confidence) {
      acc := acc.(time := incoming.time, bundle := incoming.bundle);
    }
  }

  // One key

  /** The accumulator of a non-empty group. */
  function Fold<B>(cs: seq<Candidate<B>>, norm: string -> string): Candidate<B>
    requires cs != []
  {
    if |cs| == 1 then cs[0] else Merged(Fold(cs[..|cs| - 1], norm), cs[|cs| - 1], norm)
  }

  /** `v` is carried by the first candidate whose length under `len` no other exceeds. */
  ghost predicate FirstLongest<B(!new)>(cs: seq<Candidate<B>>, len: Candidate<B> -> nat, i: nat) {
    i < |cs| && (forall j :: 0 <= j < |cs| ==> len(cs[j]) <= len(cs[i])) && (forall j :: 0 <= j < i ==> len(cs[j]) < len(cs[i]))
  }

  function SummaryLen<B>(): Candidate<B> -> nat { (c: Candidate<B>) => ByteLen(c.summary) }

  function ContextLength<B>(): Candidate<B> -> nat { (c: Candidate<B>) => ContextLen(c.context) }

  /** The merged summary is the longest one, the earliest of those. */
  lemma {:induction false} LongestSummaryWins<B(!new)>(cs: seq<Candidate<B>>, norm: string -> string) returns (s: nat)
    requires cs != []
    ensures FirstLongest(cs, SummaryLen<B>(), s) && Fold(cs, norm).summary == cs[s].summary
  {
    hide ByteLen, ContextLen, MergedEvidence;
    s := 0;
    if |cs| > 1 {
      var init, last := cs[..|cs| - 1], cs[|cs| - 1];
      s := LongestSummaryWins(init, norm);
      assert forall j :: 0 <= j < |init| ==> cs[j] == init[j];
      if ByteLen(last.summary) > ByteLen(Fold(init, norm).summary) { s := |cs| - 1; }
    }
  }

  /** The merged context is the longest one, the earliest of those; an absent context has length zero. */
  lemma {:induction false} LongestContextWins<B(!new)>(cs: seq<Candidate<B>>, norm: string -> string) returns (s: nat)
    requires cs != []
    ensures FirstLongest(cs, ContextLength<B>(), s) && Fold(cs, norm).context == cs[s].context
  {
    hide ByteLen, ContextLen, MergedEvidence;
    s := 0;
    if |cs| > 1 {
      var init, last := cs[..|cs| - 1], cs[|cs| - 1];
      s := LongestContextWins(init, norm);
      assert forall j :: 0 <= j < |init| ==> cs[j] == init[j];
      if ContextLen(last.context) > ContextLen(Fold(init, norm).context) { s := |cs| - 1; }
    }
  }

  /** The bundle and the time come whole from one candidate, and it is at the latest time; the
      confidence is the highest of the group. */
  lemma {:induction false} LatestBundleWins<B(!new)>(cs: seq<Candidate<B>>, norm: string -> string) returns (w: nat)
    requires cs != []
    ensures w < |cs| && Fold(cs, norm).bundle == cs[w].bundle && Fold(cs, norm).time == cs[w].time
    ensures forall j :: 0 <= j < |cs| ==> cs[j].time <= cs[w].time
    ensures forall j :: 0 <= j < |cs| ==> cs[j].confidence <= Fold(cs, norm).confidence
    ensures exists j :: 0 <= j < |cs| && cs[j].confidence == Fold(cs, norm).confidence
    ensures forall j :: w < j < |cs| && cs[j].time == cs[w].time ==> cs[j].confidence < Fold(cs, norm).confidence
  {
    hide ByteLen, ContextLen, MergedEvidence;
    w := 0;
    if |cs| > 1 {
      var init, last := cs[..|cs| - 1], cs[|cs| - 1];
      w := LatestBundleWins(init, norm);
      var before := Fold(init, norm);
      var k :| 0 <= k < |init| && init[k].confidence == before.confidence;
      assert cs[k] == init[k];
      if Supplants(before, last, Fold(cs, norm).confidence) { w := |cs| - 1; }
    }
  }

  /** Candidate `i` is later than all before it, or ties with the latest of them and is at least as confident as
      every one of them, the older ones included. */
  ghost predicate TakesOver<B(!new)>(cs: seq<Candidate<B>>, i: nat) {
    && i < |cs|
    && (forall j :: 0 <= j < i ==> cs[j].time <= cs[i].time)
    && ((forall j :: 0 <= j < i ==> cs[j].time < cs[i].time)
        || (forall j :: 0 <= j < i ==> cs[j].confidence <= cs[i].confidence))
  }

  /** Exactly which candidate supplies the bundle: the last that takes over. */
  lemma {:induction false} LastTakeoverSuppliesBundle<B(!new)>(cs: seq<Candidate<B>>, norm: string -> string, w: nat)
    requires TakesOver(cs, w) && forall j: nat :: w < j < |cs| ==> !TakesOver(cs, j)
    ensures Fold(cs, norm).bundle == cs[w].bundle && Fold(cs, norm).time == cs[w].time
    decreases |cs|
  {
    hide ByteLen, ContextLen, MergedEvidence;
    if |cs| > 1 {
      var init, last := cs[..|cs| - 1], cs[|cs| - 1];
      var latest := LatestBundleWins(init, norm);
      var k :| 0 <= k < |init| && init[k].confidence == Fold(init, norm).confidence;
      assert forall j :: 0 <= j < |init| ==> init[j] == cs[j];
      assert forall j: nat :: j < |init| ==> (TakesOver(init, j) <==> TakesOver(cs, j));
      assert TakesOver(cs, |cs| - 1) <==> Supplants(Fold(init, norm), last, Fold(cs, norm).confidence);
      if w < |init| { LastTakeoverSuppliesBundle(init, norm, w); }
    }
  }

  ghost predicate IsLatest<B(!new)>(cs: seq<Candidate<B>>, i: nat) {
    i < |cs| && forall j :: 0 <= j < |cs| ==> cs[j].time <= cs[i].time
  }

  /** At the latest time, and no candidate of that time is more confident. */
  ghost predicate IsBestLatest<B(!new)>(cs: seq<Candidate<B>>, i: nat) {
    && IsLatest(cs, i)
    && forall j :: 0 <= j < |cs| && IsLatest(cs, j) ==> cs[j].confidence <= cs[i].confidence
  }

  lemma {:induction false} LastTakeover<B(!new)>(cs: seq<Candidate<B>>) returns (w: nat)
    requires cs != []
    ensures TakesOver(cs, w) && forall j: nat :: w < j < |cs| ==> !TakesOver(cs, j)
    decreases |cs|
  {
    w := |cs| - 1;
    if !TakesOver(cs, w) {
      var init := cs[..w];
      if init == [] {
        assert TakesOver(cs, 0);
      } else {
        var before := LastTakeover(init);
        assert forall j :: 0 <= j < |init| ==> init[j] == cs[j];
        assert forall j: nat :: j < |init| ==> (TakesOver(init, j) <==> TakesOver(cs, j));
        w := before;
      }
    }
  }

  /** The bundle comes from a most confident of the latest candidates if and only if some such candidate takes over:
      it is the first at its time, or no earlier candidate, however old, was more confident. */
  lemma BestLatestIff<B(!new)>(cs: seq<Candidate<B>>, norm: string -> string) returns (w: nat)
    requires cs != []
    ensures TakesOver(cs, w) && forall j: nat :: w < j < |cs| ==> !TakesOver(cs, j)
    ensures Fold(cs, norm).bundle == cs[w].bundle && IsLatest(cs, w)
    ensures IsBestLatest(cs, w) <==> exists i: nat :: IsBestLatest(cs, i) && TakesOver(cs, i)
  {
    hide Fold;
    w := LastTakeover(cs);
    LastTakeoverSuppliesBundle(cs, norm, w);
    var latest := LatestBundleWins(cs, norm);
    assert cs[latest].time == cs[w].time;
    if i: nat :| IsBestLatest(cs, i) && TakesOver(cs, i) {
      assert i <= w;
      assert i < w ==> cs[i].confidence <= cs[w].confidence;
    }
  }

  /** No evidence is lost and none is invented: up to normal form the merged list holds exactly the
      evidence of all candidates, it starts with the first candidate's own list, and what was added
      repeats nothing. */
  lemma {:induction false} EvidenceIsUnion<B(!new)>(cs: seq<Candidate<B>>, norm: string -> string)
    requires cs != []
    ensures forall key :: key in NormSet(Fold(cs, norm).evidence, norm)
                          <==> exists j :: 0 <= j < |cs| && key in NormSet(cs[j].evidence, norm)
    ensures cs[0].evidence <= Fold(cs, norm).evidence
    ensures FreshFrom(Fold(cs, norm).evidence, |cs[0].evidence|, norm)
  {
    hide ByteLen, ContextLen, MergedEvidence, NormSet;
    if |cs| > 1 {
      var init, last := cs[..|cs| - 1], cs[|cs| - 1];
      EvidenceIsUnion(init, norm);
      MergedEvidenceFacts(Fold(init, norm).evidence, last.evidence, norm, |cs[0].evidence|);
      forall key ensures key in NormSet(Fold(cs, norm).evidence, norm)
                         <==> exists j :: 0 <= j < |cs| && key in NormSet(cs[j].evidence, norm)
      {
        if j :| 0 <= j < |init| && key in NormSet(init[j].evidence, norm) {
          assert cs[j] == init[j];
        }
        if j :| 0 <= j < |cs| && key in NormSet(cs[j].evidence, norm) {
          if j < |init| { assert init[j] == cs[j]; }
        }
        if key in NormSet(last.evidence, norm) { assert cs[|cs| - 1] == last; }
      }
    } else {
      forall key ensures key in NormSet(Fold(cs, norm).evidence, norm)
                         <==> exists j :: 0 <= j < |cs| && key in NormSet(cs[j].evidence, norm)
      {
        if key in NormSet(cs[0].evidence, norm) { assert 0 < |cs|; }
      }
    }
  }

  /** From position `n` on, each item's normal form is new. */
  ghost predicate FreshFrom(items: seq<string>, n: nat, norm: string -> string) {
    forall j, k :: 0 <= j < k < |items| && n <= k ==> norm(items[j]) != norm(items[k])
  }

  lemma {:induction false} MergedEvidenceFacts(existing: seq<string>, additions: seq<string>,
      norm: string -> string, n: nat)
    requires FreshFrom(existing, n, norm) && n <= |existing|
    ensures var merged := MergedEvidence(existing, additions, norm);
            && existing <= merged && FreshFrom(merged, n, norm)
            && NormSet(merged, norm) == NormSet(existing, norm) + NormSet(additions, norm)
    decreases |additions|
  {
    if additions == [] {
      assert NormSet(additions, norm) == {};
    } else {
      var x, rest := additions[0], additions[1..];
      NormSetCons(x, rest, norm);
      assert additions == [x] + rest;
      if norm(x) in NormSet(existing, norm) {
        MergedEvidenceFacts(existing, rest, norm, n);
      } else {
        NormSetSnoc(existing, x, norm);
        assert FreshFrom(existing + [x], n, norm);
        MergedEvidenceFacts(existing + [x], rest, norm, n);
      }
    }
  }

  lemma NormSetCons(x: string, rest: seq<string>, norm: string -> string)
    ensures NormSet([x] + rest, norm) == {norm(x)} + NormSet(rest, norm)
  {
    var all := [x] + rest;
    forall y ensures y in NormSet(all, norm) <==> y in {norm(x)} + NormSet(rest, norm) {
      if y in NormSet(rest, norm) {
        var i :| 0 <= i < |rest| && norm(rest[i]) == y;
        assert all[i + 1] == rest[i];
      }
      if y == norm(x) { assert all[0] == x; }
      if y in NormSet(all, norm) {
        var i :| 0 <= i < |all| && norm(all[i]) == y;
        if i > 0 { assert rest[i - 1] == all[i]; }
      }
    }
  }

  // All keys

  /** Candidates of one key that pass the filter, in order. */
  function Group<K(==), B>(items: seq<(K, Candidate<B>)>, pass: Candidate<B> -> bool, key: K): seq<Candidate<B>> {
    if items == [] then []
    else
      var last := items[|items| - 1];
      Group(items[..|items| - 1], pass, key) + (if pass(last.1) && last.0 == key then [last.1] else [])
  }

  /** `m` holds one accumulator per key with a passing candidate: the fold of its group. */
  ghost predicate Accumulated<K(!new), B(!new)>(m: map<K, Candidate<B>>, items: seq<(K, Candidate<B>)>,
                                                pass: Candidate<B> -> bool, norm: string -> string) {
    && (forall key :: key in m <==> Group(items, pass, key) != [])
    && (forall key :: key in m ==> m[key] == Fold(Group(items, pass, key), norm))
  }

  method Accumulate<K(==, !new), B(!new)>(items: seq<(K, Candidate<B>)>, pass: Candidate<B> -> bool,
      norm: string -> string)
    returns (m: map<K, Candidate<B>>)
    ensures Accumulated(m, items, pass, norm)
  {
    hide Merged, Fold, Group, Accumulated;
    m := map[];
    AccumulatedEmpty<K, B>(pass, norm);
    assert items[..0] == [];
    for i := 0 to |items|
      invariant Accumulated(m, items[..i], pass, norm)
    {
      var key, c := items[i].0, items[i].1;
      assert items[..i + 1] == items[..i] + [items[i]];
      AccumulatedSnoc(m, items[..i], items[i], pass, norm);
      if pass(c) {
        if key in m {
          var acc := MergeInto(m[key], c, norm);
          m := m[key := acc];
        } else {
          m := m[key := c];
        }
      }
    }
    assert items[..|items|] == items;
  }

  lemma GroupSnoc<K, B>(items: seq<(K, Candidate<B>)>, x: (K, Candidate<B>), pass: Candidate<B> -> bool, key: K)
    ensures Group(items + [x], pass, key)
            == Group(items, pass, key) + (if pass(x.1) && x.0 == key then [x.1] else [])
  {
    var all := items + [x];
    assert all[..|all| - 1] == items && all[|all| - 1] == x;
  }

  lemma AccumulatedEmpty<K(!new), B(!new)>(pass: Candidate<B> -> bool, norm: string -> string)
    ensures Accumulated<K, B>(map[], [], pass, norm)
  {
  }

  lemma AccumulatedSnoc<K(!new), B(!new)>(m: map<K, Candidate<B>>, items: seq<(K, Candidate<B>)>, x: (K, Candidate<B>),
                                              pass: Candidate<B> -> bool, norm: string -> string)
    requires Accumulated(m, items, pass, norm)
    ensures Accumulated(if !pass(x.1) then m
                        else if x.0 in m then m[x.0 := Merged(m[x.0], x.1, norm)] else m[x.0 := x.1],
                        items + [x], pass, norm)
  {
    hide Merged, Fold, Group;
    forall key ensures Group(items + [x], pass, key)
                       == Group(items, pass, key) + (if pass(x.1) && x.0 == key then [x.1] else [])
    {
      GroupSnoc(items, x, pass, key);
    }
    FoldStep(Group(items, pass, x.0), x.1, norm);
    forall key | key != x.0 || !pass(x.1) ensures Group(items + [x], pass, key) == Group(items, pass, key) { }
  }

  lemma FoldStep<B>(cs: seq<Candidate<B>>, c: Candidate<B>, norm: string -> string)
    ensures Fold(cs + [c], norm) == if cs == [] then c else Merged(Fold(cs, norm), c, norm)
  {
    assert (cs + [c])[..|cs|] == cs;
  }

  /** The values of a map in some order, with their keys. */
  method Values<K(==), V(!new)>(m: map<K, V>) returns (values: seq<V>, keys: seq<K>)
    ensures Distinct(keys) && |keys| == |values|
    ensures forall key :: key in keys <==> key in m
    ensures forall i :: 0 <= i < |keys| ==> keys[i] in m && values[i] == m[keys[i]]
  {
    values, keys := [], [];
    var todo := m.Keys;
    while todo != {}
      invariant todo <= m.Keys
      invariant Distinct(keys) && |keys| == |values|
      invariant forall key :: key in keys <==> key in m.Keys - todo
      invariant forall i :: 0 <= i < |keys| ==> keys[i] in m && values[i] == m[keys[i]]
      decreases |todo|
    {
      var key :| key in todo;
      assert key !in keys;
      todo := todo - {key};
      keys := keys + [key];
      values := values + [m[key]];
    }
  }

  lemma {:induction false} GroupMembers<K, B>(items: seq<(K, Candidate<B>)>, pass: Candidate<B> -> bool, key: K)
    ensures forall i :: 0 <= i < |items| && items[i].0 == key && pass(items[i].1) ==>
              items[i].1 in Group(items, pass, key)
    ensures forall j :: 0 <= j < |Group(items, pass, key)| ==>
              pass(Group(items, pass, key)[j]) && (key, Group(items, pass, key)[j]) in items
  {
    if items != [] {
      var init := items[..|items| - 1];
      GroupMembers(init, pass, key);
      assert items == init + [items[|items| - 1]];
    }
  }

  // Candidates

  datatype CandidateKey = CandidateKey(kind: IntentKind, project: string, summary: string)

  function KeyOf(c: Candidate<Bundle>, norm: string -> string): CandidateKey {
    CandidateKey(c.kind, c.bundle.project, norm(c.summary))
  }

  function Target(strict: bool, minConfidence: Option<nat>): nat {
    match minConfidence
    case Some(n) => n
    case None => if strict then 4 else 1
  }

  function CandidateFilter(target: nat, kindFilter: Option<IntentKind>): Candidate<Bundle> -> bool {
    (c: Candidate<Bundle>) => (kindFilter.Some? ==> kindFilter.value == c.kind) && c.confidence >= target
  }

  function Keyed(cs: seq<Candidate<Bundle>>, norm: string -> string): seq<(CandidateKey, Candidate<Bundle>)> {
    Map((c: Candidate<Bundle>) => (KeyOf(c, norm), c), cs)
  }

  /** Merging candidates of one key gives a candidate of that key. */
  lemma {:induction false} FoldKeepsKey(cs: seq<Candidate<Bundle>>, norm: string -> string, key: CandidateKey)
    requires cs != [] && forall i :: 0 <= i < |cs| ==> KeyOf(cs[i], norm) == key
    ensures KeyOf(Fold(cs, norm), norm) == key
    decreases |cs|
  {
    hide ByteLen, ContextLen, MergedEvidence;
    if |cs| > 1 {
      FoldKeepsKey(cs[..|cs| - 1], norm, key);
    }
  }

  lemma GroupHasKey(cs: seq<Candidate<Bundle>>, pass: Candidate<Bundle> -> bool, norm: string -> string,
                    key: CandidateKey)
    ensures forall i :: 0 <= i < |Group(Keyed(cs, norm), pass, key)| ==>
              KeyOf(Group(Keyed(cs, norm), pass, key)[i], norm) == key
  {
    hide Group, KeyOf;
    GroupMembers(Keyed(cs, norm), pass, key);
    var group := Group(Keyed(cs, norm), pass, key);
    forall i | 0 <= i < |group|
      ensures KeyOf(group[i], norm) == key
    {
      assert (key, group[i]) in Keyed(cs, norm);
    }
  }

  /** Rearranging records that all have different keys leaves no two with one key. */
  lemma DifferentKeys(values: seq<Candidate<Bundle>>, records: seq<Candidate<Bundle>>, norm: string -> string)
    requires multiset(records) == multiset(values)
    requires forall i, j :: 0 <= i < j < |values| ==> KeyOf(values[i], norm) != KeyOf(values[j], norm)
    ensures forall i, j :: 0 <= i < j < |records| ==> KeyOf(records[i], norm) != KeyOf(records[j], norm)
  {
    hide KeyOf;
    DistinctPermutation(values, records);
    SameElements(values, records);
    forall i, j | 0 <= i < j < |records|
      ensures KeyOf(records[i], norm) != KeyOf(records[j], norm)
    {
      assert records[i] in values && records[j] in values;
      var p :| 0 <= p < |values| && values[p] == records[i];
      var q :| 0 <= q < |values| && values[q] == records[j];
      assert p != q;
      assert p < q || q < p;
    }
  }

  /** Newest first, then by kind, then by source chunk, last first. */
  predicate NewestFirst(a: Candidate<Bundle>, b: Candidate<Bundle>) {
    if a.time != b.time then a.time > b.time
    else if a.kind != b.kind then SortRank(a.kind) < SortRank(b.kind)
    else LexLeq(b.bundle.sourceChunk, a.bundle.sourceChunk)
  }

  lemma NewestFirstIsOrder()
    ensures TotalPreorder(NewestFirst)
  {
    forall x: Candidate<Bundle>, y: Candidate<Bundle> ensures NewestFirst(x, y) || NewestFirst(y, x) {
      LexTotal(x.bundle.sourceChunk, y.bundle.sourceChunk);
    }
    forall x: Candidate<Bundle>, y: Candidate<Bundle>, z: Candidate<Bundle> | NewestFirst(x, y) && NewestFirst(y, z)
      ensures NewestFirst(x, z)
    {
      if LexLeq(z.bundle.sourceChunk, y.bundle.sourceChunk) && LexLeq(y.bundle.sourceChunk, x.bundle.sourceChunk) {
        LexTransitive(z.bundle.sourceChunk, y.bundle.sourceChunk, x.bundle.sourceChunk);
      }
    }
  }

  /** Passes the filters: the kind asked for, if any, and the confidence asked for, else 4 when strict and 1 otherwise. */
  ghost predicate Passes(c: Candidate<Bundle>, strict: bool, minConfidence: Option<nat>, kindFilter: Option<IntentKind>) {
    && (kindFilter == None || kindFilter == Some(c.kind))
    && (minConfidence.Some? ==> c.confidence >= minConfidence.value)
    && (minConfidence.None? ==> c.confidence >= 1 && (strict ==> c.confidence >= 4))
  }

  /** One fact: the same kind, project and normal form of the summary. */
  ghost predicate SameFact(a: Candidate<Bundle>, b: Candidate<Bundle>, norm: string -> string) {
    a.kind == b.kind && a.bundle.project == b.bundle.project && norm(a.summary) == norm(b.summary)
  }

  /** The passing candidates that state the fact of `like`, in order. */
  ghost function Restatements(cs: seq<Candidate<Bundle>>, like: Candidate<Bundle>, strict: bool,
                              minConfidence: Option<nat>, kindFilter: Option<IntentKind>, norm: string -> string)
    : seq<Candidate<Bundle>>
  {
    if cs == [] then []
    else
      var c := cs[|cs| - 1];
      Restatements(cs[..|cs| - 1], like, strict, minConfidence, kindFilter, norm)
      + (if Passes(c, strict, minConfidence, kindFilter) && SameFact(c, like, norm) then [c] else [])
  }

  lemma {:induction false} GroupIsRestatements(cs: seq<Candidate<Bundle>>, like: Candidate<Bundle>, strict: bool,
      minConfidence: Option<nat>, kindFilter: Option<IntentKind>, norm: string -> string)
    ensures Group(Keyed(cs, norm), CandidateFilter(Target(strict, minConfidence), kindFilter), KeyOf(like, norm))
            == Restatements(cs, like, strict, minConfidence, kindFilter, norm)
    decreases |cs|
  {
    if cs != [] {
      GroupIsRestatements(cs[..|cs| - 1], like, strict, minConfidence, kindFilter, norm);
      assert Keyed(cs, norm)[..|cs| - 1] == Keyed(cs[..|cs| - 1], norm);
    }
  }

  lemma {:induction false} RestatementsHold(cs: seq<Candidate<Bundle>>, like: Candidate<Bundle>, strict: bool,
      minConfidence: Option<nat>, kindFilter: Option<IntentKind>, norm: string -> string, c: Candidate<Bundle>)
    ensures c in Restatements(cs, like, strict, minConfidence, kindFilter, norm)
            <==> c in cs && Passes(c, strict, minConfidence, kindFilter) && SameFact(c, like, norm)
    decreases |cs|
  {
    hide Passes, SameFact;
    if cs != [] {
      RestatementsHold(cs[..|cs| - 1], like, strict, minConfidence, kindFilter, norm, c);
      assert cs == cs[..|cs| - 1] + [cs[|cs| - 1]];
    }
  }

  /** What the order of the output is. */
  lemma NewestFirstMeans(a: Candidate<Bundle>, b: Candidate<Bundle>)
    ensures NewestFirst(a, b)
            <==> && a.time >= b.time
                 && (a.time == b.time ==>
                       && (a.kind.Task? ==> b.kind.Task?)
                       && (a.kind.Outcome? ==> b.kind.Task? || b.kind.Outcome?)
                       && (a.kind.Intent? ==> !b.kind.Decision?)
                       && (a.kind == b.kind ==> LexLeq(b.bundle.sourceChunk, a.bundle.sourceChunk)))
  {
  }

  /** One accumulator per key that has a passing candidate, in output order. `keys` and `values` name
      the accumulators before the final sort, in the map's own order. */
  method DedupCandidates(cs: seq<Candidate<Bundle>>, strict: bool, minConfidence: Option<nat>,
                         kindFilter: Option<IntentKind>, norm: string -> string)
    returns (records: seq<Candidate<Bundle>>, ghost keys: seq<CandidateKey>, ghost values: seq<Candidate<Bundle>>)
    ensures Distinct(keys) && |keys| == |values|
    ensures var pass := CandidateFilter(Target(strict, minConfidence), kindFilter);
            && (forall key :: key in keys <==> Group(Keyed(cs, norm), pass, key) != [])
            && (forall i :: 0 <= i < |keys| ==>
                  Group(Keyed(cs, norm), pass, keys[i]) != []
                  && values[i] == Fold(Group(Keyed(cs, norm), pass, keys[i]), norm))
    ensures forall i :: 0 <= i < |keys| ==> KeyOf(values[i], norm) == keys[i]
    ensures multiset(records) == multiset(values) && SortedBy(records, NewestFirst)
    ensures forall i, j :: 0 <= i < j < |records| ==> !SameFact(records[i], records[j], norm)
    ensures forall r :: r in records ==>
              && Restatements(cs, r, strict, minConfidence, kindFilter, norm) != []
              && r == Fold(Restatements(cs, r, strict, minConfidence, kindFilter, norm), norm)
    ensures forall c :: c in cs && Passes(c, strict, minConfidence, kindFilter) ==>
              exists r :: r in records && SameFact(r, c, norm)
  {
    hide Group, Fold, NewestFirst, SortBy, KeyOf, Passes, SameFact, Restatements, Keyed, CandidateFilter;
    var pass := CandidateFilter(Target(strict, minConfidence), kindFilter);
    var m := Accumulate(Keyed(cs, norm), pass, norm);
    var list, order := Values(m);
    keys, values := order, list;
    NewestFirstIsOrder();
    SortBySorted(list, NewestFirst);
    records := SortBy(list, NewestFirst);
    forall i | 0 <= i < |keys|
      ensures Group(Keyed(cs, norm), pass, keys[i]) != []
              && values[i] == Fold(Group(Keyed(cs, norm), pass, keys[i]), norm)
      ensures KeyOf(values[i], norm) == keys[i]
    {
      assert keys[i] in m;
      GroupHasKey(cs, pass, norm, keys[i]);
      FoldKeepsKey(Group(Keyed(cs, norm), pass, keys[i]), norm, keys[i]);
    }
    DifferentKeys(values, records, norm);
    forall a, b { SameFactIsKey(a, b, norm); }
    SameElements(values, records);
    forall r | r in records
      ensures Restatements(cs, r, strict, minConfidence, kindFilter, norm) != []
      ensures r == Fold(Restatements(cs, r, strict, minConfidence, kindFilter, norm), norm)
    {
      assert multiset(values)[r] > 0 && r in values;
      var i :| 0 <= i < |values| && values[i] == r;
      GroupIsRestatements(cs, r, strict, minConfidence, kindFilter, norm);
    }
    forall c | c in cs && Passes(c, strict, minConfidence, kindFilter)
      ensures exists r :: r in records && SameFact(r, c, norm)
    {
      RestatementsHold(cs, c, strict, minConfidence, kindFilter, norm, c);
      GroupIsRestatements(cs, c, strict, minConfidence, kindFilter, norm);
      assert KeyOf(c, norm) in keys;
      var i :| 0 <= i < |keys| && keys[i] == KeyOf(c, norm);
      assert values[i] in values && values[i] in records;
    }
  }

  lemma SameFactIsKey(a: Candidate<Bundle>, b: Candidate<Bundle>, norm: string -> string)
    ensures SameFact(a, b, norm) <==> KeyOf(a, norm) == KeyOf(b, norm)
  {
  }

  // Tasks

  datatype TaskEvent = TaskEvent(key: string, candidate: Candidate<TaskBundle>)

  /** Oldest first, then by source chunk; the sort is stable. */
  predicate OldestFirst(a: TaskEvent, b: TaskEvent) {
    if a.candidate.time != b.candidate.time then a.candidate.time < b.candidate.time
    else LexLeq(a.candidate.bundle.record.sourceChunk, b.candidate.bundle.record.sourceChunk)
  }

  predicate NewestTaskFirst(a: Candidate<TaskBundle>, b: Candidate<TaskBundle>) {
    if a.time != b.time then a.time > b.time
    else LexLeq(b.bundle.record.sourceChunk, a.bundle.record.sourceChunk)
  }

  lemma NewestTaskFirstIsOrder()
    ensures TotalPreorder(NewestTaskFirst)
  {
    forall x: Candidate<TaskBundle>, y: Candidate<TaskBundle> ensures NewestTaskFirst(x, y) || NewestTaskFirst(y, x) {
      LexTotal(x.bundle.record.sourceChunk, y.bundle.record.sourceChunk);
    }
    forall x: Candidate<TaskBundle>, y: Candidate<TaskBundle>, z: Candidate<TaskBundle>
      | NewestTaskFirst(x, y) && NewestTaskFirst(y, z)
      ensures NewestTaskFirst(x, z)
    {
      var cx, cy, cz := x.bundle.record.sourceChunk, y.bundle.record.sourceChunk, z.bundle.record.sourceChunk;
      if LexLeq(cz, cy) && LexLeq(cy, cx) { LexTransitive(cz, cy, cx); }
    }
  }

  function TaskFilter(target: nat): Candidate<TaskBundle> -> bool {
    (c: Candidate<TaskBundle>) => c.confidence >= target
  }

  function TaskItems(events: seq<TaskEvent>): seq<(string, Candidate<TaskBundle>)> {
    Map((e: TaskEvent) => (e.key, e.candidate), SortBy(events, OldestFirst))
  }

  /** The accumulator of one task key. */
  function TaskState(events: seq<TaskEvent>, target: nat, key: string, norm: string -> string): Candidate<TaskBundle>
    requires Group(TaskItems(events), TaskFilter(target), key) != []
  {
    Fold(Group(TaskItems(events), TaskFilter(target), key), norm)
  }

  /** No later than `b`, and no later in source chunk at the same time. */
  ghost predicate NoNewer(a: Candidate<TaskBundle>, b: Candidate<TaskBundle>) {
    a.time <= b.time && (a.time == b.time ==> LexLeq(a.bundle.record.sourceChunk, b.bundle.record.sourceChunk))
  }

  lemma {:induction false} GroupKeepsOrder(items: seq<(string, Candidate<TaskBundle>)>,
      pass: Candidate<TaskBundle> -> bool, key: string)
    requires forall i, j :: 0 <= i < j < |items| ==> NoNewer(items[i].1, items[j].1)
    ensures forall i, j :: 0 <= i < j < |Group(items, pass, key)| ==>
              NoNewer(Group(items, pass, key)[i], Group(items, pass, key)[j])
    decreases |items|
  {
    hide NoNewer;
    if items != [] {
      var init, last := items[..|items| - 1], items[|items| - 1];
      GroupKeepsOrder(init, pass, key);
      GroupMembers(init, pass, key);
      var group := Group(init, pass, key);
      forall i | 0 <= i < |group|
        ensures NoNewer(group[i], last.1)
      {
        assert (key, group[i]) in init;
        var k :| 0 <= k < |init| && init[k] == (key, group[i]);
        assert items[k] == init[k];
      }
    }
  }

  /** The events that make up a task: those of its key that are confident enough, folded oldest first and, at one
      time, in the order of their source chunks. */
  lemma TaskEventsMean(events: seq<TaskEvent>, target: nat, key: string)
    ensures var group := Group(TaskItems(events), TaskFilter(target), key);
            && (forall c :: c in group
                  <==> exists e :: e in events && e.key == key && e.candidate == c && c.confidence >= target)
            && forall i, j :: 0 <= i < j < |group| ==> NoNewer(group[i], group[j])
  {
    hide Group, SortBy, OldestFirst, LexLeq;
    var sorted, items := SortBy(events, OldestFirst), TaskItems(events);
    OldestFirstIsOrder();
    SortBySorted(events, OldestFirst);
    SortByPermutes(events, OldestFirst);
    SameElements(sorted, events);
    GroupMembers(items, TaskFilter(target), key);
    forall i, j | 0 <= i < j < |items|
      ensures NoNewer(items[i].1, items[j].1)
    {
      OldestFirstMeans(sorted[i], sorted[j]);
    }
    GroupKeepsOrder(items, TaskFilter(target), key);
    var group := Group(items, TaskFilter(target), key);
    forall c
      ensures c in group <==> exists e :: e in events && e.key == key && e.candidate == c && c.confidence >= target
    {
      if c in group {
        assert (key, c) in items;
        var k :| 0 <= k < |items| && items[k] == (key, c);
        assert sorted[k] in sorted;
      }
      if e :| e in events && e.key == key && e.candidate == c && c.confidence >= target {
        assert e in sorted;
        var k :| 0 <= k < |sorted| && sorted[k] == e;
        assert items[k] == (key, c);
      }
    }
  }

  lemma OldestFirstMeans(a: TaskEvent, b: TaskEvent)
    requires OldestFirst(a, b)
    ensures NoNewer(a.candidate, b.candidate)
  {
  }

  lemma OldestFirstIsOrder()
    ensures TotalPreorder(OldestFirst)
  {
    forall x: TaskEvent, y: TaskEvent ensures OldestFirst(x, y) || OldestFirst(y, x) {
      LexTotal(x.candidate.bundle.record.sourceChunk, y.candidate.bundle.record.sourceChunk);
    }
    forall x: TaskEvent, y: TaskEvent, z: TaskEvent | OldestFirst(x, y) && OldestFirst(y, z)
      ensures OldestFirst(x, z)
    {
      var cx, cy, cz := x.candidate.bundle.record.sourceChunk, y.candidate.bundle.record.sourceChunk,
                        z.candidate.bundle.record.sourceChunk;
      if LexLeq(cx, cy) && LexLeq(cy, cz) { LexTransitive(cx, cy, cz); }
    }
  }

  /** The open task per key, newest first. */
  method FinalizeTasks(events: seq<TaskEvent>, strict: bool, minConfidence: Option<nat>,
                       kindFilter: Option<IntentKind>, norm: string -> string)
    returns (records: seq<Candidate<TaskBundle>>, ghost keys: seq<string>, ghost values: seq<Candidate<TaskBundle>>)
    ensures kindFilter.Some? && !kindFilter.value.Task? ==> records == []
    ensures kindFilter.Some? ==> kindFilter.value.Task? || keys == []
    ensures Distinct(keys) && |keys| == |values|
    ensures var target := Target(strict, minConfidence);
            && (kindFilter.None? || kindFilter.value.Task? ==>
                  forall key :: key in keys <==> Group(TaskItems(events), TaskFilter(target), key) != [])
            && (forall i :: 0 <= i < |keys| ==>
                  Group(TaskItems(events), TaskFilter(target), keys[i]) != []
                  && values[i] == TaskState(events, target, keys[i], norm))
    ensures multiset(records) == multiset(Filter(values, (c: Candidate<TaskBundle>) => c.bundle.isOpen))
    ensures SortedBy(records, NewestTaskFirst)
    ensures kindFilter.None? || kindFilter.value.Task? ==>
              forall key :: key in keys
                <==> exists e :: e in events && e.key == key
                                 && (minConfidence.Some? ==> e.candidate.confidence >= minConfidence.value)
                                 && (minConfidence.None? ==>
                                       e.candidate.confidence >= 1 && (strict ==> e.candidate.confidence >= 4))
    ensures forall i, j :: 0 <= i < j < |records| ==> NoNewer(records[j], records[i])
  {
    hide Group, Fold, NewestTaskFirst, SortBy, NoNewer, TaskItems, TaskFilter;
    keys, values := [], [];
    if kindFilter.Some? && !kindFilter.value.Task? {
      return [], [], [];
    }
    var target := Target(strict, minConfidence);
    var m := Accumulate(TaskItems(events), TaskFilter(target), norm);
    var list, order := Values(m);
    keys, values := order, list;
    var open := Filter(list, (c: Candidate<TaskBundle>) => c.bundle.isOpen);
    NewestTaskFirstIsOrder();
    SortBySorted(open, NewestTaskFirst);
    records := SortBy(open, NewestTaskFirst);
    forall i | 0 <= i < |keys|
      ensures Group(TaskItems(events), TaskFilter(target), keys[i]) != []
              && values[i] == TaskState(events, target, keys[i], norm)
    {
      assert keys[i] in m;
    }
    forall key
      ensures Group(TaskItems(events), TaskFilter(target), key) != []
              <==> exists e :: e in events && e.key == key && e.candidate.confidence >= target
    {
      TaskEventsMean(events, target, key);
      var group := Group(TaskItems(events), TaskFilter(target), key);
      if group != [] { assert group[0] in group; }
      if e :| e in events && e.key == key && e.candidate.confidence >= target { assert e.candidate in group; }
    }
    forall i, j | 0 <= i < j < |records|
      ensures NoNewer(records[j], records[i])
    {
      NewestTaskFirstMeans(records[i], records[j]);
    }
  }

  lemma NewestTaskFirstMeans(a: Candidate<TaskBundle>, b: Candidate<TaskBundle>)
    requires NewestTaskFirst(a, b)
    ensures NoNewer(b, a)
  {
  }

  /** Whether a task is open, and where it comes from, is read off one event of its key, and no passing
      event of that key is later. */
  lemma TaskStateIsLatest(events: seq<TaskEvent>, target: nat, key: string, norm: string -> string)
    returns (e: TaskEvent)
    requires Group(TaskItems(events), TaskFilter(target), key) != []
    ensures e in events && e.key == key && e.candidate.confidence >= target
    ensures TaskState(events, target, key, norm).bundle == e.candidate.bundle
    ensures TaskState(events, target, key, norm).time == e.candidate.time
    ensures forall i :: 0 <= i < |events| && events[i].key == key && events[i].candidate.confidence >= target ==>
              events[i].candidate.time <= e.candidate.time
  {
    hide Group, Fold, SortBy;
    var sorted, items := SortBy(events, OldestFirst), TaskItems(events);
    SortByPermutes(events, OldestFirst);
    SameElements(sorted, events);
    var group := Group(items, TaskFilter(target), key);
    GroupMembers(items, TaskFilter(target), key);
    var w := LatestBundleWins(group, norm);
    assert (key, group[w]) in items;
    var k :| 0 <= k < |items| && items[k] == (key, group[w]);
    e := sorted[k];
    assert e in sorted;
    forall i | 0 <= i < |events| && events[i].key == key && events[i].candidate.confidence >= target
      ensures events[i].candidate.time <= e.candidate.time
    {
      assert events[i] in sorted;
      var q :| 0 <= q < |sorted| && sorted[q] == events[i];
      assert items[q] == (key, events[i].candidate);
      assert items[q].1 in group;
    }
  }

  /** The tie test does not pick the most confident of the latest candidates: it compares with the
      highest confidence seen at any time. Here the later of two equally timed candidates is the more
      confident one and still loses, because an older candidate was more confident than both. */
  lemma TieIgnoresConfidence<B>(c: Candidate<B>, norm: string -> string)
    ensures var old0 := c.(confidence := 5, time := 0);
            var first := c.(confidence := 2, time := 1);
            var second := c.(confidence := 3, time := 1);
            forall b1: B, b2: B ::
              Fold([old0, first.(bundle := b1), second.(bundle := b2)], norm).bundle == b1
  {
    hide MergedEvidence, ByteLen, ContextLen;
    var old0 := c.(confidence := 5, time := 0);
    forall b1: B, b2: B
      ensures Fold([old0, c.(confidence := 2, time := 1, bundle := b1), c.(confidence := 3, time := 1, bundle := b2)], norm).bundle == b1
    {
      var first, second := c.(confidence := 2, time := 1, bundle := b1), c.(confidence := 3, time := 1, bundle := b2);
      FoldStep([old0, first], second, norm);
      FoldStep([old0], first, norm);
      FoldStep([], old0, norm);
      assert [old0, first] == [old0] + [first] && [old0, first, second] == [old0, first] + [second];
      assert [] + [old0] == [old0];
    }
  }
}

/** Supersession chains among intent entries (`detect_supersedes`, src/intents.rs). */
module Supersedes {
  import opened Ordering
  import opened Text

  datatype EntryType = Intent | Task | Commitment | Why | Argue | Decision | Assumption | Outcome
                     | Result | Question | Insight

  datatype EntryState = Proposed | Active | Superseded | Done | Contradicted

  datatype LinkType = DerivedFrom | SupersedesLink | Verifies | Contradicts | Supports | ResultsIn | Answers | LinksTo

  datatype Link = Link(relation: LinkType, target: string, confidence: Option<real>)

  /** A recorded date and the instant it parses to, if it does. */
  datatype FlexDate = FlexDate(text: string, instant: Option<int>)

  datatype IntentEntry = IntentEntry(id: string, entryType: EntryType, state: EntryState, title: string,
                                     links: seq<Link>, supersededBy: Option<string>, confidence: real,
                                     project: Option<string>, date: FlexDate)

  datatype Ordering3 = Less | Equal | Greater

  /** Instants when both dates parse, text otherwise. */
  function CmpDatesFlexible(a: FlexDate, b: FlexDate): Ordering3 {
    if a.instant.Some? && b.instant.Some? then
      if a.instant.value < b.instant.value then Less
      else if a.instant.value == b.instant.value then Equal else Greater
    else
      if a.text == b.text then Equal else if LexLeq(a.text, b.text) then Less else Greater
  }

  function TypeName(t: EntryType): string {
    match t
    case Intent => "intent"
    case Decision => "decision"
    case Insight => "insight"
    case _ => "other"
  }

  /** The topic of an entry that takes part in supersession. `words` stands for the first five words
      of the normalised title. */
  function TopicKey(e: IntentEntry, words: string -> string): Option<string> {
    if e.entryType.Intent? || e.entryType.Decision? || e.entryType.Insight? then
      Some((if e.project.Some? then e.project.value else "") + ":" + TypeName(e.entryType) + ":" + words(e.title))
    else None
  }

  // The order inside a chain

  datatype SortKey = SortKey(date: FlexDate, confidence: real)

  function Key(e: IntentEntry): SortKey { SortKey(e.date, e.confidence) }

  function Keys(es: seq<IntentEntry>): seq<SortKey> { Map(Key, es) }

  /** Strictly earlier in a chain: older date, then lower confidence, then later in the input. */
  predicate BeforeBy(keys: seq<SortKey>, i: nat, j: nat) {
    i < |keys| && j < |keys| &&
    match CmpDatesFlexible(keys[i].date, keys[j].date)
    case Less => true
    case Greater => false
    case Equal =>
      keys[i].confidence < keys[j].confidence || (keys[i].confidence == keys[j].confidence && i > j)
  }

  predicate Before(es: seq<IntentEntry>, i: nat, j: nat) { BeforeBy(Keys(es), i, j) }

  function ChainOrder(keys: seq<SortKey>): (nat, nat) -> bool { (i: nat, j: nat) => i == j || BeforeBy(keys, i, j) }

  predicate SameTopic(es: seq<IntentEntry>, words: string -> string, i: nat, j: nat) {
    i < |es| && j < |es| && TopicKey(es[i], words).Some? && TopicKey(es[i], words) == TopicKey(es[j], words)
  }

  /** Standing before is transitive among the members of a topic. */
  ghost predicate Transitive(es: seq<IntentEntry>, words: string -> string, topic: string) {
    forall i: nat, j: nat, k: nat ::
      (InTopic(es, words, topic, i) && InTopic(es, words, topic, j) && InTopic(es, words, topic, k)
       && Before(es, i, j) && Before(es, j, k)) ==> Before(es, i, k)
  }

  predicate InTopic(es: seq<IntentEntry>, words: string -> string, topic: string, i: nat) {
    i < |es| && TopicKey(es[i], words) == Some(topic)
  }

  /** Every topic can be sorted. */
  ghost predicate Comparable(es: seq<IntentEntry>, words: string -> string) {
    forall topic :: Transitive(es, words, topic)
  }

  /** Inside each topic either every date parses or none does. */
  ghost predicate DatesAlike(es: seq<IntentEntry>, words: string -> string) {
    forall i: nat, j: nat :: SameTopic(es, words, i, j) ==> (es[i].date.instant.Some? <==> es[j].date.instant.Some?)
  }

  /** `next` is the immediate successor of `i` in its topic, or nothing follows `i`. */
  ghost predicate IsNext(es: seq<IntentEntry>, words: string -> string, i: nat, next: Option<nat>) {
    match next
    case None => forall k: nat :: SameTopic(es, words, i, k) ==> !Before(es, i, k)
    case Some(j) =>
      && SameTopic(es, words, i, j) && Before(es, i, j)
      && (forall k: nat :: SameTopic(es, words, i, k) && Before(es, i, k) ==> k == j || Before(es, j, k))
  }

  ghost predicate IsPrevious(es: seq<IntentEntry>, words: string -> string, i: nat, prev: Option<nat>) {
    match prev
    case None => forall k: nat :: SameTopic(es, words, i, k) ==> !Before(es, k, i)
    case Some(j) =>
      && SameTopic(es, words, i, j) && Before(es, j, i)
      && (forall k: nat :: SameTopic(es, words, i, k) && Before(es, k, i) ==> k == j || Before(es, k, j))
  }

  // What the pass does

  predicate Linked(links: seq<Link>, target: string) {
    exists k :: 0 <= k < |links| && links[k].relation == SupersedesLink && links[k].target == target
  }

  function AddLink(links: seq<Link>, target: string): (r: seq<Link>)
    ensures Linked(r, target)
  {
    if Linked(links, target) then links
    else
      var r := links + [Link(SupersedesLink, target, Some(0.7))];
      assert r[|links|].target == target;
      r
  }

  function WithPrevious(es: seq<IntentEntry>, i: nat, prev: Option<nat>): IntentEntry
    requires i < |es| && (prev.Some? ==> prev.value < |es|)
  {
    if prev.Some? then es[i].(links := AddLink(es[i].links, es[prev.value].id)) else es[i]
  }

  /** The entry at `i` after the pass, given its neighbours in the chain. */
  function Resolve(es: seq<IntentEntry>, i: nat, prev: Option<nat>, next: Option<nat>): IntentEntry
    requires i < |es| && (prev.Some? ==> prev.value < |es|) && (next.Some? ==> next.value < |es|)
  {
    var e := WithPrevious(es, i, prev);
    if next.Some? then e.(state := Superseded, supersededBy := Some(es[next.value].id))
    else if prev.Some? then e.(state := Active)
    else e
  }

  /** Every entry is resolved by its neighbours; an entry alone in its topic, or in none, is left alone. */
  ghost predicate Resolved(before: seq<IntentEntry>, after: seq<IntentEntry>, words: string -> string) {
    && |after| == |before|
    && (forall i: nat, prev, next :: i < |before| && IsPrevious(before, words, i, prev) && IsNext(before, words, i, next) ==>
          after[i] == Resolve(before, i, prev, next))
  }

  // Chains as sorted index lists

  function MembersUpTo(es: seq<IntentEntry>, words: string -> string, topic: string, n: nat): seq<nat>
    requires n <= |es|
  {
    if n == 0 then []
    else
      MembersUpTo(es, words, topic, n - 1) + (if TopicKey(es[n - 1], words) == Some(topic) then [n - 1] else [])
  }

  lemma {:induction false} MembersFacts(es: seq<IntentEntry>, words: string -> string, topic: string, n: nat)
    requires n <= |es|
    ensures var m := MembersUpTo(es, words, topic, n);
            && (forall i: nat :: i in m <==> i < n && TopicKey(es[i], words) == Some(topic))
            && Distinct(m)
  {
    if n > 0 { MembersFacts(es, words, topic, n - 1); }
  }

  function Chain(es: seq<IntentEntry>, words: string -> string, topic: string): seq<nat> {
    SortBy(MembersUpTo(es, words, topic, |es|), ChainOrder(Keys(es)))
  }

  lemma BeforeTransitive(keys: seq<SortKey>, i: nat, j: nat, k: nat)
    requires BeforeBy(keys, i, j) && BeforeBy(keys, j, k)
    requires keys[i].date.instant.Some? == keys[j].date.instant.Some? == keys[k].date.instant.Some?
    ensures BeforeBy(keys, i, k)
  {
    LexOrder(keys[i].date.text, keys[j].date.text, keys[k].date.text);
  }

  lemma LexOrder(a: string, b: string, c: string)
    ensures LexLeq(a, b) && LexLeq(b, c) ==> LexLeq(a, c)
    ensures LexLeq(a, b) && LexLeq(b, a) ==> a == b
    ensures LexLeq(a, b) && LexLeq(b, c) && a == c ==> a == b
  {
    if LexLeq(a, b) && LexLeq(b, c) { LexTransitive(a, b, c); }
    if LexLeq(a, b) && LexLeq(b, a) { LexAntisymmetric(a, b); }
  }

  lemma BeforeTotal(keys: seq<SortKey>, i: nat, j: nat)
    requires i < |keys| && j < |keys| && i != j
    ensures BeforeBy(keys, i, j) || BeforeBy(keys, j, i)
  {
    LexTotal(keys[i].date.text, keys[j].date.text);
  }

  lemma BeforeAsymmetric(keys: seq<SortKey>, i: nat, j: nat)
    requires BeforeBy(keys, i, j)
    ensures !BeforeBy(keys, j, i) && i != j
  {
    if LexLeq(keys[i].date.text, keys[j].date.text) && LexLeq(keys[j].date.text, keys[i].date.text) {
      LexAntisymmetric(keys[i].date.text, keys[j].date.text);
    }
  }

  /** No later in the chain, said of the entries alone: instants decide when both dates parse, texts otherwise; then the
      lower confidence comes first, then the later place in the input. */
  ghost predicate NoLater(a: IntentEntry, i: nat, b: IntentEntry, j: nat) {
    if a.date.instant.Some? && b.date.instant.Some? then
      && a.date.instant.value <= b.date.instant.value
      && (a.date.instant.value == b.date.instant.value ==>
            a.confidence <= b.confidence && (a.confidence == b.confidence ==> j <= i))
    else
      && LexLeq(a.date.text, b.date.text)
      && (a.date.text == b.date.text ==>
            a.confidence <= b.confidence && (a.confidence == b.confidence ==> j <= i))
  }

  lemma BeforeMeans(es: seq<IntentEntry>, i: nat, j: nat)
    requires i < |es| && j < |es|
    ensures NoLater(es[i], i, es[j], j) <==> i == j || Before(es, i, j)
  {
    LexTotal(es[i].date.text, es[i].date.text);
  }

  /** Which entries share a topic: intents, decisions or insights of one type and one project whose titles have the
      same words, as long as no project name holds a colon. */
  lemma TopicMeans(a: IntentEntry, b: IntentEntry, words: string -> string)
    ensures TopicKey(a, words).Some? <==> a.entryType.Intent? || a.entryType.Decision? || a.entryType.Insight?
    ensures TopicKey(a, words).Some? && a.entryType == b.entryType && words(a.title) == words(b.title)
            && (a.project == b.project || (a.project == None && b.project == Some(""))
                || (a.project == Some("") && b.project == None)) ==>
              TopicKey(a, words) == TopicKey(b, words)
    ensures (a.project.Some? ==> ':' !in a.project.value) && (b.project.Some? ==> ':' !in b.project.value)
            && TopicKey(a, words).Some? && TopicKey(a, words) == TopicKey(b, words) ==>
              && a.entryType == b.entryType && words(a.title) == words(b.title)
              && (a.project == b.project || (a.project == None && b.project == Some(""))
                  || (a.project == Some("") && b.project == None))
  {
    if TopicKey(a, words).Some? && TopicKey(a, words) == TopicKey(b, words) {
      var p, q := if a.project.Some? then a.project.value else "", if b.project.Some? then b.project.value else "";
      var s, t := TypeName(a.entryType), TypeName(b.entryType);
      assert ':' !in s && ':' !in t;
      if ':' !in p && ':' !in q {
        SameCut(p, s + ":" + words(a.title), q, t + ":" + words(b.title), TopicKey(a, words).value);
        SameCut(s, words(a.title), t, words(b.title), s + ":" + words(a.title));
        assert s[1] == t[1];
      }
    }
  }

  lemma SameCut(p: string, x: string, q: string, y: string, whole: string)
    requires ':' !in p && ':' !in q && whole == p + ":" + x && whole == q + ":" + y
    ensures p == q && x == y
  {
    FieldsCut(p, ':', x);
    FieldsCut(q, ':', y);
    assert p == Fields(whole, ':')[0] == q;
    assert x == whole[|p| + 1..] && y == whole[|q| + 1..];
  }

  ghost predicate InRange(chain: seq<nat>, n: nat) { forall p :: 0 <= p < |chain| ==> chain[p] < n }

  /** A chain lists exactly the members of its topic, each once, in chain order. */
  ghost predicate IsChain(es: seq<IntentEntry>, words: string -> string, topic: string, chain: seq<nat>) {
    && (forall i: nat :: i in chain <==> i < |es| && TopicKey(es[i], words) == Some(topic))
    && (forall p, q :: 0 <= p < q < |chain| ==> Before(es, chain[p], chain[q]))
    && Distinct(chain) && InRange(chain, |es|)
  }

  lemma ChainIsChain(es: seq<IntentEntry>, words: string -> string, topic: string)
    requires Transitive(es, words, topic)
    ensures IsChain(es, words, topic, Chain(es, words, topic))
    ensures |Chain(es, words, topic)| == |MembersUpTo(es, words, topic, |es|)|
  {
    hide BeforeBy, SortBy, MembersUpTo, TopicKey;
    var m, leq := MembersUpTo(es, words, topic, |es|), ChainOrder(Keys(es));
    MembersFacts(es, words, topic, |es|);
    forall x: nat, y: nat | x in m && y in m ensures leq(x, y) || leq(y, x) {
      if x != y { BeforeTotal(Keys(es), x, y); }
    }
    forall x: nat, y: nat, z: nat | x in m && y in m && z in m && leq(x, y) && leq(y, z) ensures leq(x, z) {
      if x != y && y != z {
        assert InTopic(es, words, topic, x) && InTopic(es, words, topic, y) && InTopic(es, words, topic, z);
      }
    }
    SortBySortedOn(m, leq);
    var chain := Chain(es, words, topic);
    SameElements(chain, m);
    DistinctPermutation(m, chain);
    forall p, q | 0 <= p < q < |chain| ensures Before(es, chain[p], chain[q]) {
      assert leq(chain[p], chain[q]);
    }
    forall p | 0 <= p < |chain| ensures chain[p] < |es| {
      assert chain[p] in chain;
    }
  }

  /** Alike dates are enough for a topic to be sorted. */
  lemma AlikeDatesCompare(es: seq<IntentEntry>, words: string -> string)
    requires DatesAlike(es, words)
    ensures Comparable(es, words)
  {
    hide BeforeBy, TopicKey;
    forall topic, i: nat, j: nat, k: nat |
      InTopic(es, words, topic, i) && InTopic(es, words, topic, j) && InTopic(es, words, topic, k)
      && Before(es, i, j) && Before(es, j, k)
      ensures Before(es, i, k)
    {
      assert SameTopic(es, words, i, j) && SameTopic(es, words, j, k);
      BeforeTransitive(Keys(es), i, j, k);
    }
  }

  /** A topic can be sorted into a chain, each member before all later ones, if and only if standing before is transitive
      among its members. */
  lemma SortsIffTransitive(es: seq<IntentEntry>, words: string -> string, topic: string)
    ensures (exists chain :: IsChain(es, words, topic, chain)) <==> Transitive(es, words, topic)
  {
    hide BeforeBy, TopicKey, Chain;
    if Transitive(es, words, topic) { ChainIsChain(es, words, topic); }
    if chain :| IsChain(es, words, topic, chain) {
      forall i: nat, j: nat, k: nat |
        InTopic(es, words, topic, i) && InTopic(es, words, topic, j) && InTopic(es, words, topic, k)
        && Before(es, i, j) && Before(es, j, k)
        ensures Before(es, i, k)
      {
        assert i in chain && j in chain && k in chain;
        var p :| 0 <= p < |chain| && chain[p] == i;
        var q :| 0 <= q < |chain| && chain[q] == j;
        var r :| 0 <= r < |chain| && chain[r] == k;
        BeforeAsymmetric(Keys(es), i, j);
        BeforeAsymmetric(Keys(es), j, k);
        assert p < q < r;
      }
    }
  }

  function NextIn(chain: seq<nat>, p: nat): Option<nat>
    requires p < |chain|
  {
    if p + 1 < |chain| then Some(chain[p + 1]) else None
  }

  function PreviousIn(chain: seq<nat>, p: nat): Option<nat>
    requires p < |chain|
  {
    if p > 0 then Some(chain[p - 1]) else None
  }

  /** A member that stands after position `p` in chain order stands after it in the list. */
  lemma PositionOfLater(es: seq<IntentEntry>, words: string -> string, topic: string, chain: seq<nat>, p: nat, k: nat)
    returns (q: nat)
    requires IsChain(es, words, topic, chain) && p < |chain|
    requires SameTopic(es, words, chain[p], k) && Before(es, chain[p], k)
    ensures p < q < |chain| && chain[q] == k
  {
    hide BeforeBy;
    assert chain[p] in chain && k in chain;
    q :| 0 <= q < |chain| && chain[q] == k;
    BeforeAsymmetric(Keys(es), chain[p], k);
    assert q < p ==> Before(es, chain[q], chain[p]);
  }

  lemma PositionOfEarlier(es: seq<IntentEntry>, words: string -> string, topic: string, chain: seq<nat>, p: nat, k: nat)
    returns (q: nat)
    requires IsChain(es, words, topic, chain) && p < |chain|
    requires SameTopic(es, words, chain[p], k) && Before(es, k, chain[p])
    ensures q < p && chain[q] == k
  {
    hide BeforeBy;
    assert chain[p] in chain && k in chain;
    q :| 0 <= q < |chain| && chain[q] == k;
    BeforeAsymmetric(Keys(es), k, chain[p]);
    assert p < q ==> Before(es, chain[p], chain[q]);
  }

  /** Neighbours in the sorted list are the immediate neighbours in the topic. */
  lemma ChainNext(es: seq<IntentEntry>, words: string -> string, topic: string, chain: seq<nat>, p: nat)
    requires IsChain(es, words, topic, chain) && p < |chain|
    ensures IsNext(es, words, chain[p], NextIn(chain, p))
  {
    hide BeforeBy, TopicKey;
    var i := chain[p];
    assert i in chain;
    if p + 1 < |chain| {
      var j := chain[p + 1];
      assert j in chain;
      forall k: nat | SameTopic(es, words, i, k) && Before(es, i, k) ensures k == j || Before(es, j, k) {
        var q := PositionOfLater(es, words, topic, chain, p, k);
        if q > p + 1 { assert Before(es, chain[p + 1], chain[q]); }
      }
    } else {
      forall k: nat | SameTopic(es, words, i, k) ensures !Before(es, i, k) {
        if Before(es, i, k) {
          var q := PositionOfLater(es, words, topic, chain, p, k);
        }
      }
    }
  }

  lemma ChainPrevious(es: seq<IntentEntry>, words: string -> string, topic: string, chain: seq<nat>, p: nat)
    requires IsChain(es, words, topic, chain) && p < |chain|
    ensures IsPrevious(es, words, chain[p], PreviousIn(chain, p))
  {
    hide BeforeBy, TopicKey;
    var i := chain[p];
    assert i in chain;
    if p > 0 {
      var j := chain[p - 1];
      assert j in chain;
      assert Before(es, j, i);
      forall k: nat | SameTopic(es, words, i, k) && Before(es, k, i) ensures k == j || Before(es, k, j) {
        var q := PositionOfEarlier(es, words, topic, chain, p, k);
        if q < p - 1 { assert Before(es, chain[q], chain[p - 1]); }
      }
    } else {
      forall k: nat | SameTopic(es, words, i, k) ensures !Before(es, k, i) {
        if Before(es, k, i) {
          var q := PositionOfEarlier(es, words, topic, chain, p, k);
        }
      }
    }
  }

  lemma NextUnique(es: seq<IntentEntry>, words: string -> string, i: nat, a: Option<nat>, b: Option<nat>)
    requires IsNext(es, words, i, a) && IsNext(es, words, i, b)
    ensures a == b
  {
    hide BeforeBy;
    if a.Some? && b.Some? && a != b {
      BeforeAsymmetric(Keys(es), a.value, b.value);
    }
  }

  lemma PreviousUnique(es: seq<IntentEntry>, words: string -> string, i: nat, a: Option<nat>, b: Option<nat>)
    requires IsPrevious(es, words, i, a) && IsPrevious(es, words, i, b)
    ensures a == b
  {
    hide BeforeBy;
    if a.Some? && b.Some? && a != b {
      BeforeAsymmetric(Keys(es), a.value, b.value);
    }
  }

  /** The entry at position `p` of a chain after the pass. */
  function ResolveAt(es: seq<IntentEntry>, chain: seq<nat>, p: nat): IntentEntry
    requires p < |chain| && forall q :: 0 <= q < |chain| ==> chain[q] < |es|
  {
    Resolve(es, chain[p], PreviousIn(chain, p), NextIn(chain, p))
  }

  function Overtaken(e: IntentEntry, newerId: string): IntentEntry {
    e.(state := Superseded, supersededBy := Some(newerId))
  }

  function Overtaking(e: IntentEntry, olderId: string): IntentEntry {
    e.(links := AddLink(e.links, olderId))
  }

  /** The chain is resolved up to position `w`, whose entry has received its link but not its state. */
  ghost predicate Stage(before: seq<IntentEntry>, now: seq<IntentEntry>, chain: seq<nat>, w: nat)
    requires InRange(chain, |before|) && |now| == |before| && w < |chain|
  {
    && (forall p :: 0 <= p < w ==> now[chain[p]] == ResolveAt(before, chain, p))
    && now[chain[w]] == WithPrevious(before, chain[w], PreviousIn(chain, w))
    && (forall p :: w < p < |chain| ==> now[chain[p]] == before[chain[p]])
    && (forall i :: 0 <= i < |now| && i !in chain ==> now[i] == before[i])
  }

  lemma StageStep(before: seq<IntentEntry>, now: seq<IntentEntry>, chain: seq<nat>, w: nat, next: seq<IntentEntry>)
    requires InRange(chain, |before|) && |now| == |before| && w + 1 < |chain| && Distinct(chain)
    requires Stage(before, now, chain, w)
    requires next == now[chain[w] := Overtaken(now[chain[w]], now[chain[w + 1]].id)]
                        [chain[w + 1] := Overtaking(now[chain[w + 1]], now[chain[w]].id)]
    ensures Stage(before, next, chain, w + 1)
  {
    hide ResolveAt, WithPrevious, Overtaken, Overtaking;
    MiddleOfChain(before, chain, w);
    var older, newer := chain[w], chain[w + 1];
    assert older != newer && older in chain && newer in chain;
    assert next[newer] == Overtaking(now[newer], now[older].id);
    assert next[older] == Overtaken(now[older], now[newer].id);
    forall p | 0 <= p < w ensures next[chain[p]] == now[chain[p]] {
      assert chain[p] != newer && chain[p] != older;
    }
    forall p | w + 1 < p < |chain| ensures next[chain[p]] == now[chain[p]] {
      assert chain[p] != newer && chain[p] != older;
    }
  }

  lemma MiddleOfChain(before: seq<IntentEntry>, chain: seq<nat>, w: nat)
    requires InRange(chain, |before|) && w + 1 < |chain|
    ensures var e := WithPrevious(before, chain[w], PreviousIn(chain, w));
            && e.id == before[chain[w]].id
            && ResolveAt(before, chain, w) == Overtaken(e, before[chain[w + 1]].id)
            && WithPrevious(before, chain[w + 1], PreviousIn(chain, w + 1))
               == Overtaking(before[chain[w + 1]], before[chain[w]].id)
  {
    hide AddLink;
  }

  /** Resolves one chain of at least two entries in place. */
  method ResolveChain(entries: array<IntentEntry>, chain: seq<nat>)
    requires |chain| >= 2 && Distinct(chain) && InRange(chain, entries.Length)
    modifies entries
    ensures forall p :: 0 <= p < |chain| ==> entries[chain[p]] == ResolveAt(old(entries[..]), chain, p)
    ensures forall i :: 0 <= i < entries.Length && i !in chain ==> entries[i] == old(entries[i])
  {
    hide AddLink, ResolveAt;
    ghost var before := entries[..];
    for w := 0 to |chain| - 1
      invariant Stage(before, entries[..], chain, w)
    {
      ghost var now := entries[..];
      var older, newer := chain[w], chain[w + 1];
      assert older != newer;
      var olderId, newerId := entries[older].id, entries[newer].id;
      entries[older] := Overtaken(entries[older], newerId);
      entries[newer] := Overtaking(entries[newer], olderId);
      StageStep(before, now, chain, w, entries[..]);
    }
    ghost var last := |chain| - 1;
    var winner := chain[|chain| - 1];
    ghost var now := entries[..];
    entries[winner] := entries[winner].(state := Active);
    LastStage(before, now, chain);
    assert entries[..] == now[winner := now[winner].(state := Active)];
    forall p | 0 <= p < |chain| ensures entries[chain[p]] == ResolveAt(before, chain, p) {
      assert entries[..][chain[p]] == ResolveAt(before, chain, p);
    }
  }

  lemma LastStage(before: seq<IntentEntry>, now: seq<IntentEntry>, chain: seq<nat>)
    requires |chain| >= 2 && Distinct(chain) && InRange(chain, |before|) && |now| == |before|
    requires Stage(before, now, chain, |chain| - 1)
    ensures var winner := chain[|chain| - 1];
            var after := now[winner := now[winner].(state := Active)];
            && (forall p :: 0 <= p < |chain| ==> after[chain[p]] == ResolveAt(before, chain, p))
            && (forall i :: 0 <= i < |now| && i !in chain ==> after[i] == before[i])
  {
    hide AddLink;
    assert chain[|chain| - 1] in chain;
    forall p | 0 <= p < |chain| - 1 ensures chain[p] != chain[|chain| - 1] { }
  }

  /** Groups candidate indices by topic. */
  method GroupByTopic(entries: array<IntentEntry>, words: string -> string) returns (topics: map<string, seq<nat>>)
    ensures forall t :: t in topics <==> MembersUpTo(entries[..], words, t, entries.Length) != []
    ensures forall t :: t in topics ==> topics[t] == MembersUpTo(entries[..], words, t, entries.Length)
  {
    topics := map[];
    for i := 0 to entries.Length
      invariant forall t :: t in topics <==> MembersUpTo(entries[..], words, t, i) != []
      invariant forall t :: t in topics ==> topics[t] == MembersUpTo(entries[..], words, t, i)
    {
      match TopicKey(entries[i], words) {
        case None =>
        case Some(topic) =>
          var have := if topic in topics then topics[topic] else [];
          topics := topics[topic := have + [i]];
      }
    }
  }

  /** Every entry has a previous and a next, possibly none. */
  lemma Neighbours(es: seq<IntentEntry>, words: string -> string, i: nat) returns (prev: Option<nat>, next: Option<nat>)
    requires i < |es| && Comparable(es, words)
    ensures IsPrevious(es, words, i, prev) && IsNext(es, words, i, next)
  {
    hide BeforeBy;
    match TopicKey(es[i], words)
    case None => prev, next := None, None;
    case Some(topic) =>
      var chain := Chain(es, words, topic);
      ChainIsChain(es, words, topic);
      assert i in chain;
      var p: nat :| p < |chain| && chain[p] == i;
      ChainNext(es, words, topic, chain, p);
      ChainPrevious(es, words, topic, chain, p);
      prev, next := PreviousIn(chain, p), NextIn(chain, p);
  }

  lemma ChainEntry(before: seq<IntentEntry>, words: string -> string, topic: string, chain: seq<nat>, p: nat,
                   prev: Option<nat>, next: Option<nat>)
    requires IsChain(before, words, topic, chain) && p < |chain|
    requires IsPrevious(before, words, chain[p], prev) && IsNext(before, words, chain[p], next)
    ensures prev == PreviousIn(chain, p) && next == NextIn(chain, p)
  {
    ChainNext(before, words, topic, chain, p);
    ChainPrevious(before, words, topic, chain, p);
    NextUnique(before, words, chain[p], next, NextIn(chain, p));
    PreviousUnique(before, words, chain[p], prev, PreviousIn(chain, p));
  }

  /** A list of exactly the members of a topic, each once, in some order. */
  ghost predicate Lists(es: seq<IntentEntry>, words: string -> string, topic: string, chain: seq<nat>) {
    && (forall i: nat :: i in chain <==> i < |es| && TopicKey(es[i], words) == Some(topic))
    && Distinct(chain) && InRange(chain, |es|)
  }

  /** Each entry in the listed topics is resolved by its neighbours in its topic's list, when that has two members or
      more; every other entry is untouched. */
  ghost predicate ResolvedAlong(before: seq<IntentEntry>, after: seq<IntentEntry>, words: string -> string,
                                chains: map<string, seq<nat>>) {
    && |after| == |before|
    && (forall t :: t in chains ==> Lists(before, words, t, chains[t]))
    && (forall t :: t in chains && |chains[t]| >= 2 ==> ChainResolved(before, after, chains[t]))
    && (forall i: nat :: i < |before| && Alone(before, words, chains, i) ==> after[i] == before[i])
  }

  ghost predicate ChainResolved(before: seq<IntentEntry>, after: seq<IntentEntry>, chain: seq<nat>) {
    InRange(chain, |before|) && |after| == |before|
    && forall p :: 0 <= p < |chain| ==> after[chain[p]] == ResolveAt(before, chain, p)
  }

  /** In no topic, in a topic not listed, or the only member of one. */
  ghost predicate Alone(es: seq<IntentEntry>, words: string -> string, chains: map<string, seq<nat>>, i: nat) {
    i < |es| ==>
      var topic := TopicKey(es[i], words);
      topic.None? || topic.value !in chains || |chains[topic.value]| < 2
  }

  ghost predicate Covers(es: seq<IntentEntry>, words: string -> string, chains: map<string, seq<nat>>) {
    forall i: nat :: i < |es| && TopicKey(es[i], words).Some? ==> TopicKey(es[i], words).value in chains
  }

  lemma SortLists(es: seq<IntentEntry>, words: string -> string, topic: string)
    ensures Lists(es, words, topic, Chain(es, words, topic))
    ensures |Chain(es, words, topic)| == |MembersUpTo(es, words, topic, |es|)|
  {
    hide SortBy, MembersUpTo, ChainOrder, TopicKey;
    var members, chain := MembersUpTo(es, words, topic, |es|), Chain(es, words, topic);
    MembersFacts(es, words, topic, |es|);
    SortByPermutes(members, ChainOrder(Keys(es)));
    SameElements(members, chain);
    DistinctPermutation(members, chain);
    forall p | 0 <= p < |chain| ensures chain[p] < |es| { assert chain[p] in chain; }
  }

  /** Resolving the chain of one more topic. */
  lemma OneTopicMore(before: seq<IntentEntry>, now: seq<IntentEntry>, after: seq<IntentEntry>, words: string -> string,
                     chains: map<string, seq<nat>>, topic: string, chain: seq<nat>)
    requires ResolvedAlong(before, now, words, chains) && topic !in chains && Lists(before, words, topic, chain)
    requires |after| == |now|
    requires |chain| >= 2 ==> ChainResolved(now, after, chain)
    requires |chain| < 2 ==> after == now
    requires forall i :: 0 <= i < |now| && i !in chain ==> after[i] == now[i]
    ensures ResolvedAlong(before, after, words, chains[topic := chain])
  {
    hide ResolveAt, TopicKey;
    assert forall p :: 0 <= p < |chain| ==> chain[p] in chain && now[chain[p]] == before[chain[p]];
    if |chain| >= 2 { SameResolve(before, now, chain); }
    forall t | t in chains && |chains[t]| >= 2
      ensures ChainResolved(before, after, chains[t])
    {
      assert ChainResolved(before, now, chains[t]);
      assert forall p :: 0 <= p < |chains[t]| ==> chains[t][p] in chains[t] && chains[t][p] !in chain;
    }
  }

  /** A chain of untouched entries resolves as it would have at the start. */
  lemma SameResolve(before: seq<IntentEntry>, now: seq<IntentEntry>, chain: seq<nat>)
    requires |now| == |before| && InRange(chain, |before|)
    requires forall p :: 0 <= p < |chain| ==> now[chain[p]] == before[chain[p]]
    ensures forall p :: 0 <= p < |chain| ==> ResolveAt(now, chain, p) == ResolveAt(before, chain, p)
  {
    hide AddLink;
  }

  /** The pass: group by topic, sort each group into a chain, resolve each chain. The order in which the topics are
      taken is arbitrary. Where the sort has no total order to go by its result is some order of the group, and the
      pass resolves along that one. */
  method DetectSupersedes(entries: array<IntentEntry>, words: string -> string)
    modifies entries
    ensures exists chains ::
              ResolvedAlong(old(entries[..]), entries[..], words, chains) && Covers(old(entries[..]), words, chains)
    ensures Comparable(old(entries[..]), words) ==> Resolved(old(entries[..]), entries[..], words)
  {
    hide AddLink, BeforeBy, Transitive, MembersUpTo, ResolveAt, SortBy, ResolvedAlong, Resolved, Lists, TopicKey;
    ghost var before := entries[..];
    var topics := GroupByTopic(entries, words);
    var keys := Keys(entries[..]);
    var todo := topics.Keys;
    ghost var chains: map<string, seq<nat>> := map[];
    assert ResolvedAlong(before, entries[..], words, chains) by { NothingResolved(before, words); }
    while todo != {}
      invariant todo <= topics.Keys && chains.Keys == topics.Keys - todo
      invariant forall t :: t in chains ==> chains[t] == Chain(before, words, t)
      invariant ResolvedAlong(before, entries[..], words, chains)
      decreases |todo|
    {
      var topic :| topic in todo;
      var chain := SortBy(topics[topic], ChainOrder(keys));
      assert chain == Chain(before, words, topic);
      SortLists(before, words, topic);
      ListParts(before, words, topic, chain);
      ghost var now := entries[..];
      if |chain| >= 2 {
        ResolveChain(entries, chain);
        assert ChainResolved(now, entries[..], chain);
      }
      OneTopicMore(before, now, entries[..], words, chains, topic, chain);
      chains := chains[topic := chain];
      todo := todo - {topic};
    }
    AllCovered(before, words, chains);
    if Comparable(before, words) { AlongChainsIsResolved(before, entries[..], words, chains); }
  }

  lemma NothingResolved(es: seq<IntentEntry>, words: string -> string)
    ensures ResolvedAlong(es, es, words, map[])
  {
  }

  lemma ListParts(es: seq<IntentEntry>, words: string -> string, topic: string, chain: seq<nat>)
    requires Lists(es, words, topic, chain)
    ensures Distinct(chain) && InRange(chain, |es|)
  {
  }

  lemma AllCovered(es: seq<IntentEntry>, words: string -> string, chains: map<string, seq<nat>>)
    requires forall t :: t in chains <==> MembersUpTo(es, words, t, |es|) != []
    ensures Covers(es, words, chains)
  {
    hide TopicKey, MembersUpTo;
    forall i: nat | i < |es| && TopicKey(es[i], words).Some?
      ensures TopicKey(es[i], words).value in chains
    {
      var topic := TopicKey(es[i], words).value;
      MembersFacts(es, words, topic, |es|);
      assert i in MembersUpTo(es, words, topic, |es|);
    }
  }

  /** Along chains in chain order, every entry is resolved by its immediate neighbours in its topic. */
  lemma AlongChainsIsResolved(before: seq<IntentEntry>, after: seq<IntentEntry>, words: string -> string,
                              chains: map<string, seq<nat>>)
    requires Comparable(before, words) && ResolvedAlong(before, after, words, chains) && Covers(before, words, chains)
    requires forall t :: t in chains ==> chains[t] == Chain(before, words, t)
    ensures Resolved(before, after, words)
  {
    hide AddLink, TopicKey, BeforeBy, Transitive, Chain;
    forall i: nat, prev, next | i < |before| && IsPrevious(before, words, i, prev) && IsNext(before, words, i, next)
      ensures after[i] == Resolve(before, i, prev, next)
    {
      if TopicKey(before[i], words).None? {
        NoTopicNoNeighbours(before, words, i, prev, next);
      } else {
        var topic := TopicKey(before[i], words).value;
        var chain := chains[topic];
        ChainIsChain(before, words, topic);
        assert i in chain;
        var p: nat :| p < |chain| && chain[p] == i;
        ChainEntry(before, words, topic, chain, p, prev, next);
        if |chain| >= 2 { assert ChainResolved(before, after, chain); }
      }
    }
  }

  /** The links after one to `target` is seen to: unchanged when they hold one, else with it at the end. */
  ghost predicate LinkedTo(links: seq<Link>, target: string, after: seq<Link>) {
    if exists l :: l in links && l.relation == SupersedesLink && l.target == target then after == links
    else after == links + [Link(SupersedesLink, target, Some(0.7))]
  }

  /** Whatever order the sort settles on, each topic with two or more members has one Active entry, the last in that
      order, and every other member is Superseded by the one after it. */
  lemma OneActiveInAnyOrder(before: seq<IntentEntry>, after: seq<IntentEntry>, words: string -> string,
                            chains: map<string, seq<nat>>, i: nat)
    returns (chain: seq<nat>)
    requires ResolvedAlong(before, after, words, chains) && Covers(before, words, chains)
    requires i < |before| && HasSibling(before, words, i)
    ensures |after| == |before| && InRange(chain, |before|) && |chain| >= 2
    ensures TopicKey(before[i], words).Some? && TopicKey(before[i], words).value in chains
    ensures chain == chains[TopicKey(before[i], words).value]
    ensures Lists(before, words, TopicKey(before[i], words).value, chain)
    ensures after[chain[|chain| - 1]].state.Active?
    ensures forall p :: 0 <= p < |chain| - 1 ==>
              after[chain[p]].state.Superseded? && after[chain[p]].supersededBy == Some(before[chain[p + 1]].id)
    ensures after[chain[0]].links == before[chain[0]].links
    ensures forall p :: 0 < p < |chain| ==>
              LinkedTo(before[chain[p]].links, before[chain[p - 1]].id, after[chain[p]].links)
  {
    hide TopicKey, AddLink, LinkedTo, ResolveAt, ChainResolved;
    chain := SiblingChain(before, after, words, chains, i);
    ChainLinks(before, after, chain);
    ChainOutcome(before, after, chain);
    hide Lists, ResolvedAlong, Covers, HasSibling;
  }

  lemma SiblingChain(before: seq<IntentEntry>, after: seq<IntentEntry>, words: string -> string,
                     chains: map<string, seq<nat>>, i: nat)
    returns (chain: seq<nat>)
    requires ResolvedAlong(before, after, words, chains) && Covers(before, words, chains)
    requires i < |before| && HasSibling(before, words, i)
    ensures |after| == |before| && InRange(chain, |before|) && |chain| >= 2
    ensures TopicKey(before[i], words).Some? && TopicKey(before[i], words).value in chains
    ensures chain == chains[TopicKey(before[i], words).value]
    ensures Lists(before, words, TopicKey(before[i], words).value, chain) && ChainResolved(before, after, chain)
  {
    hide TopicKey, ChainResolved;
    chain := chains[TopicKey(before[i], words).value];
    var j: nat :| j != i && SameTopic(before, words, i, j);
    assert i in chain && j in chain;
    TwoMembers(chain, i, j);
  }

  lemma ChainOutcome(before: seq<IntentEntry>, after: seq<IntentEntry>, chain: seq<nat>)
    requires ChainResolved(before, after, chain) && |chain| >= 2
    ensures after[chain[|chain| - 1]].state.Active?
    ensures forall p :: 0 <= p < |chain| - 1 ==>
              after[chain[p]].state.Superseded? && after[chain[p]].supersededBy == Some(before[chain[p + 1]].id)
  {
    hide AddLink;
  }

  lemma ChainLinks(before: seq<IntentEntry>, after: seq<IntentEntry>, chain: seq<nat>)
    requires ChainResolved(before, after, chain) && |chain| >= 2
    ensures after[chain[0]].links == before[chain[0]].links
    ensures forall p :: 0 < p < |chain| ==>
              LinkedTo(before[chain[p]].links, before[chain[p - 1]].id, after[chain[p]].links)
  {
    hide AddLink, LinkedTo;
    forall p | 0 < p < |chain|
      ensures LinkedTo(before[chain[p]].links, before[chain[p - 1]].id, after[chain[p]].links)
    {
      AddLinkMeans(before[chain[p]].links, before[chain[p - 1]].id);
      assert after[chain[p]] == ResolveAt(before, chain, p);
    }
    assert after[chain[0]] == ResolveAt(before, chain, 0);
  }

  lemma AddLinkMeans(links: seq<Link>, target: string)
    ensures LinkedTo(links, target, AddLink(links, target))
  {
    if l :| l in links && l.relation == SupersedesLink && l.target == target {
      var k :| 0 <= k < |links| && links[k] == l;
      assert Linked(links, target);
    }
  }

  lemma NoTopicNoNeighbours(es: seq<IntentEntry>, words: string -> string, i: nat, prev: Option<nat>, next: Option<nat>)
    requires i < |es| && TopicKey(es[i], words).None?
    requires IsPrevious(es, words, i, prev) && IsNext(es, words, i, next)
    ensures prev.None? && next.None?
  {
  }

  // What a resolved list looks like

  ghost predicate HasSibling(es: seq<IntentEntry>, words: string -> string, i: nat) {
    exists j: nat :: j != i && SameTopic(es, words, i, j)
  }

  /** The entry no sibling follows: latest date, then highest confidence, then first seen. */
  ghost predicate IsWinner(es: seq<IntentEntry>, words: string -> string, w: nat) {
    w < |es| && TopicKey(es[w], words).Some?
    && forall k: nat :: k != w && SameTopic(es, words, w, k) ==> Before(es, k, w)
  }

  /** Each topic with two or more members has a winner, and it is the only Active member; each other
      member is Superseded by its immediate successor. The winner's own `superseded_by` is left as it was. */
  lemma OneActivePerTopic(before: seq<IntentEntry>, after: seq<IntentEntry>, words: string -> string, i: nat)
    returns (w: nat)
    requires Resolved(before, after, words) && Comparable(before, words)
    requires i < |before| && HasSibling(before, words, i)
    ensures SameTopic(before, words, i, w) && IsWinner(before, words, w)
    ensures after[w].state.Active? && after[w].supersededBy == before[w].supersededBy
    ensures forall k: nat :: k != w && SameTopic(before, words, i, k) ==>
              after[k].state.Superseded? && SupersededByNext(before, after, words, k)
  {
    hide BeforeBy, AddLink, Transitive, TopicKey, IsNext, IsPrevious;
    var topic := TopicKey(before[i], words).value;
    var chain := Chain(before, words, topic);
    ChainIsChain(before, words, topic);
    var j: nat :| j != i && SameTopic(before, words, i, j);
    assert i in chain && j in chain;
    TwoMembers(chain, i, j);
    var last := |chain| - 1;
    w := chain[last];
    assert w in chain;
    ChainMember(before, after, words, topic, chain, last);
    forall k: nat | k != w && SameTopic(before, words, i, k)
      ensures Before(before, k, w) && after[k].state.Superseded? && SupersededByNext(before, after, words, k)
    {
      assert k in chain;
      var p: nat :| p < |chain| && chain[p] == k;
      assert Before(before, chain[p], chain[last]);
      ChainMember(before, after, words, topic, chain, p);
    }
  }

  /** What that means in dates. The Active entry of a topic is dated no earlier than any other member, among equal dates
      it is the most confident, and among those the first. Dates are compared as instants where both parse and as texts
      otherwise. Every other member is Superseded by one that is no earlier by the same tests, with no member between
      the two. */
  lemma LatestEntryWins(before: seq<IntentEntry>, after: seq<IntentEntry>, words: string -> string, i: nat)
    returns (w: nat)
    requires Resolved(before, after, words) && Comparable(before, words)
    requires i < |before| && HasSibling(before, words, i)
    ensures |after| == |before| && SameTopic(before, words, i, w) && after[w].state.Active?
    ensures forall k: nat :: SameTopic(before, words, i, k) ==>
              var e, last := before[k], before[w];
              if e.date.instant.Some? && last.date.instant.Some? then
                && e.date.instant.value <= last.date.instant.value
                && (e.date.instant.value == last.date.instant.value ==>
                      e.confidence <= last.confidence && (e.confidence == last.confidence ==> w <= k))
              else
                && LexLeq(e.date.text, last.date.text)
                && (e.date.text == last.date.text ==>
                      e.confidence <= last.confidence && (e.confidence == last.confidence ==> w <= k))
    ensures forall k: nat :: k != w && SameTopic(before, words, i, k) ==>
              && after[k].state.Superseded?
              && exists j: nat ::
                   && j != k && SameTopic(before, words, k, j) && after[k].supersededBy == Some(before[j].id)
                   && NoLater(before[k], k, before[j], j)
                   && forall m: nat :: SameTopic(before, words, k, m) ==>
                        NoLater(before[m], m, before[k], k) || NoLater(before[j], j, before[m], m)
  {
    assert |after| == |before|;
    hide BeforeBy, AddLink, Transitive, TopicKey, NoLater, IsPrevious, Resolved;
    w := OneActivePerTopic(before, after, words, i);
    forall k: nat | SameTopic(before, words, i, k)
      ensures NoLater(before[k], k, before[w], w)
    {
      BeforeMeans(before, k, w);
    }
    forall k: nat | k != w && SameTopic(before, words, i, k)
      ensures exists j: nat ::
                && j != k && SameTopic(before, words, k, j) && after[k].supersededBy == Some(before[j].id)
                && NoLater(before[k], k, before[j], j)
                && forall m: nat :: SameTopic(before, words, k, m) ==>
                     NoLater(before[m], m, before[k], k) || NoLater(before[j], j, before[m], m)
    {
      assert SupersededByNext(before, after, words, k);
      var j: nat :| j < |before| && IsNext(before, words, k, Some(j)) && after[k].supersededBy == Some(before[j].id);
      SuccessorMeans(before, words, k, j);
    }
    assert forall k: nat :: SameTopic(before, words, i, k) ==> NoLater(before[k], k, before[w], w);
    NoLaterUnfolds(before, words, i, w);
  }

  lemma NoLaterUnfolds(es: seq<IntentEntry>, words: string -> string, i: nat, w: nat)
    requires w < |es| && forall k: nat :: SameTopic(es, words, i, k) ==> NoLater(es[k], k, es[w], w)
    ensures forall k: nat :: SameTopic(es, words, i, k) ==>
              var e, last := es[k], es[w];
              if e.date.instant.Some? && last.date.instant.Some? then
                && e.date.instant.value <= last.date.instant.value
                && (e.date.instant.value == last.date.instant.value ==>
                      e.confidence <= last.confidence && (e.confidence == last.confidence ==> w <= k))
              else
                && LexLeq(e.date.text, last.date.text)
                && (e.date.text == last.date.text ==>
                      e.confidence <= last.confidence && (e.confidence == last.confidence ==> w <= k))
  {
    hide SameTopic, LexLeq;
  }

  lemma SuccessorMeans(es: seq<IntentEntry>, words: string -> string, k: nat, j: nat)
    requires k < |es| && j < |es| && IsNext(es, words, k, Some(j))
    ensures j != k && NoLater(es[k], k, es[j], j)
    ensures forall m: nat :: SameTopic(es, words, k, m) ==>
              NoLater(es[m], m, es[k], k) || NoLater(es[j], j, es[m], m)
  {
    hide BeforeBy, TopicKey, NoLater;
    BeforeMeans(es, k, j);
    BeforeAsymmetric(Keys(es), k, j);
    forall m: nat | SameTopic(es, words, k, m)
      ensures NoLater(es[m], m, es[k], k) || NoLater(es[j], j, es[m], m)
    {
      BeforeMeans(es, m, k);
      BeforeMeans(es, j, m);
      if m != k && !Before(es, k, m) { BeforeTotal(Keys(es), k, m); }
    }
  }

  /** What the pass makes of position `p` of a chain of at least two. */
  lemma ChainMember(before: seq<IntentEntry>, after: seq<IntentEntry>, words: string -> string, topic: string,
                    chain: seq<nat>, p: nat)
    requires Resolved(before, after, words) && IsChain(before, words, topic, chain) && p < |chain| && |chain| >= 2
    ensures p == |chain| - 1 ==>
              after[chain[p]].state.Active? && after[chain[p]].supersededBy == before[chain[p]].supersededBy
    ensures p < |chain| - 1 ==> after[chain[p]].state.Superseded? && SupersededByNext(before, after, words, chain[p])
  {
    hide BeforeBy, AddLink, TopicKey, IsNext, IsPrevious;
    ChainNext(before, words, topic, chain, p);
    ChainPrevious(before, words, topic, chain, p);
    ResolvedAt(before, after, words, chain[p], PreviousIn(chain, p), NextIn(chain, p));
    if p < |chain| - 1 {
      assert IsNext(before, words, chain[p], Some(chain[p + 1]));
    }
  }

  lemma TwoMembers(s: seq<nat>, a: nat, b: nat)
    requires a in s && b in s && a != b
    ensures |s| >= 2
  {
    var p :| 0 <= p < |s| && s[p] == a;
    var q :| 0 <= q < |s| && s[q] == b;
    assert p != q;
  }

  ghost predicate SupersededByNext(before: seq<IntentEntry>, after: seq<IntentEntry>, words: string -> string, k: nat)
    requires |after| == |before|
  {
    exists j: nat :: j < |before| && k < |before| && IsNext(before, words, k, Some(j))
                     && after[k].supersededBy == Some(before[j].id)
  }

  ghost predicate UniqueIds(es: seq<IntentEntry>) {
    forall i, j :: 0 <= i < j < |es| ==> es[i].id != es[j].id
  }

  function IndexOfId(es: seq<IntentEntry>, id: string): (r: Option<nat>)
    ensures r.Some? ==> r.value < |es| && es[r.value].id == id
    ensures r.None? ==> forall i :: 0 <= i < |es| ==> es[i].id != id
  {
    if es == [] then None
    else if es[|es| - 1].id == id then Some(|es| - 1)
    else IndexOfId(es[..|es| - 1], id)
  }

  /** Follows `superseded_by` by id while the entry is Superseded, at most `steps` times. */
  function Follow(es: seq<IntentEntry>, i: nat, steps: nat): nat
    requires i < |es|
    decreases steps
  {
    if steps == 0 || !es[i].state.Superseded? || es[i].supersededBy.None? then i
    else
      match IndexOfId(es, es[i].supersededBy.value)
      case None => i
      case Some(j) => Follow(es, j, steps - 1)
  }

  /** With distinct ids, following `superseded_by` from any member reaches the winner of its topic. */
  lemma FollowReachesWinner(before: seq<IntentEntry>, after: seq<IntentEntry>, words: string -> string, i: nat)
    returns (w: nat)
    requires Resolved(before, after, words) && Comparable(before, words) && UniqueIds(before)
    requires i < |before| && HasSibling(before, words, i)
    ensures Follow(after, i, |after|) == w
    ensures SameTopic(before, words, i, w) && IsWinner(before, words, w) && after[w].state.Active?
  {
    hide BeforeBy, AddLink, Transitive, TopicKey, Follow, IndexOfId;
    w := OneActivePerTopic(before, after, words, i);
    var topic := TopicKey(before[i], words).value;
    var chain := Chain(before, words, topic);
    ChainIsChain(before, words, topic);
    assert i in chain && w in chain;
    var p: nat :| p < |chain| && chain[p] == i;
    var q: nat :| q < |chain| && chain[q] == w;
    LastIsWinner(before, words, topic, chain, q);
    var j: nat :| j != i && SameTopic(before, words, i, j);
    assert j in chain;
    TwoMembers(chain, i, j);
    ChainFits(chain, |after|);
    CoreKept(before, after, words);
    ResolvedChain(before, after, words, topic, chain);
    FollowAlong(before, after, chain, p, |after|);
  }

  lemma LastIsWinner(es: seq<IntentEntry>, words: string -> string, topic: string, chain: seq<nat>, q: nat)
    requires IsChain(es, words, topic, chain) && q < |chain| && IsWinner(es, words, chain[q])
    ensures q == |chain| - 1
  {
    hide BeforeBy;
    if q < |chain| - 1 {
      var l := chain[|chain| - 1];
      assert l in chain && chain[q] in chain;
      assert l != chain[q] && SameTopic(es, words, chain[q], l);
      assert Before(es, chain[q], l);
      BeforeAsymmetric(Keys(es), chain[q], l);
    }
  }

  /** Distinct indices below `n` are at most `n` many. */
  lemma {:induction false} ChainFits(chain: seq<nat>, n: nat)
    requires Distinct(chain) && InRange(chain, n)
    ensures |chain| <= n
    decreases n
  {
    if chain != [] {
      assert chain[0] < n;
      if n - 1 in chain {
        var p :| 0 <= p < |chain| && chain[p] == n - 1;
        var rest := chain[..p] + chain[p + 1..];
        assert Distinct(rest);
        ChainFits(rest, n - 1);
      } else {
        ChainFits(chain, n - 1);
      }
    }
  }

  /** The pass changes only states, links and `superseded_by`. */
  lemma CoreKept(before: seq<IntentEntry>, after: seq<IntentEntry>, words: string -> string)
    requires Resolved(before, after, words) && Comparable(before, words)
    ensures forall i :: 0 <= i < |before| ==>
              after[i] == before[i].(state := after[i].state, links := after[i].links, supersededBy := after[i].supersededBy)
    ensures Keys(after) == Keys(before)
    ensures forall i: nat, j: nat :: SameTopic(after, words, i, j) <==> SameTopic(before, words, i, j)
  {
    hide AddLink, IsNext, IsPrevious, Transitive;
    forall i: nat | i < |before|
      ensures after[i] == before[i].(state := after[i].state, links := after[i].links, supersededBy := after[i].supersededBy)
    {
      var prev, next := Neighbours(before, words, i);
      ResolvedAt(before, after, words, i, prev, next);
    }
  }

  /** Nor does it change more where a topic cannot be sorted. */
  lemma CoreKeptInAnyOrder(before: seq<IntentEntry>, after: seq<IntentEntry>, words: string -> string,
                           chains: map<string, seq<nat>>)
    requires ResolvedAlong(before, after, words, chains)
    ensures forall i :: 0 <= i < |before| ==>
              after[i] == before[i].(state := after[i].state, links := after[i].links,
                                     supersededBy := after[i].supersededBy)
  {
    hide AddLink, TopicKey;
    forall i: nat | i < |before|
      ensures after[i] == before[i].(state := after[i].state, links := after[i].links,
                                     supersededBy := after[i].supersededBy)
    {
      if !Alone(before, words, chains, i) {
        var chain := chains[TopicKey(before[i], words).value];
        assert ChainResolved(before, after, chain) && i in chain;
        var p :| 0 <= p < |chain| && chain[p] == i;
        assert after[chain[p]] == ResolveAt(before, chain, p);
      }
    }
  }

  /** Whatever order the sort settles on, with distinct ids, following `superseded_by` from any member reaches the last
      of its topic's list, the Active one. */
  lemma FollowReachesLastInAnyOrder(before: seq<IntentEntry>, after: seq<IntentEntry>, words: string -> string,
                                    chains: map<string, seq<nat>>, i: nat)
    requires ResolvedAlong(before, after, words, chains) && Covers(before, words, chains) && UniqueIds(before)
    requires i < |before| && HasSibling(before, words, i)
    ensures var chain := chains[TopicKey(before[i], words).value];
            && |chain| >= 2 && Follow(after, i, |after|) == chain[|chain| - 1]
            && after[chain[|chain| - 1]].state.Active?
  {
    hide TopicKey, AddLink, Follow, ResolveAt;
    var along := OneActiveInAnyOrder(before, after, words, chains, i);
    CoreKeptInAnyOrder(before, after, words, chains);
    var chain := chains[TopicKey(before[i], words).value];
    assert ChainResolved(before, after, chain) && i in chain;
    var p: nat :| p < |chain| && chain[p] == i;
    ChainFits(chain, |after|);
    FollowAlong(before, after, chain, p, |after|);
  }

  lemma ResolvedAt(before: seq<IntentEntry>, after: seq<IntentEntry>, words: string -> string, i: nat,
                   prev: Option<nat>, next: Option<nat>)
    requires Resolved(before, after, words) && i < |before|
    requires IsPrevious(before, words, i, prev) && IsNext(before, words, i, next)
    ensures (prev.Some? ==> prev.value < |before|) && (next.Some? ==> next.value < |before|)
    ensures after[i] == Resolve(before, i, prev, next)
  {
  }

  lemma ResolvedChain(before: seq<IntentEntry>, after: seq<IntentEntry>, words: string -> string, topic: string,
                      chain: seq<nat>)
    requires Resolved(before, after, words) && IsChain(before, words, topic, chain)
    ensures ChainResolved(before, after, chain)
  {
    hide AddLink, BeforeBy, TopicKey, IsNext, IsPrevious;
    forall p: nat | p < |chain|
      ensures after[chain[p]] == ResolveAt(before, chain, p)
    {
      ChainNext(before, words, topic, chain, p);
      ChainPrevious(before, words, topic, chain, p);
      ResolvedAt(before, after, words, chain[p], PreviousIn(chain, p), NextIn(chain, p));
    }
  }

  lemma ChainStates(before: seq<IntentEntry>, after: seq<IntentEntry>, chain: seq<nat>, p: nat)
    requires ChainResolved(before, after, chain) && p < |chain| && |chain| >= 2
    ensures chain[p] < |after|
    ensures p + 1 == |chain| ==> after[chain[p]].state.Active?
    ensures p + 1 < |chain| ==>
              && chain[p + 1] < |before| && after[chain[p]].state.Superseded?
              && after[chain[p]].supersededBy == Some(before[chain[p + 1]].id)
  {
    hide AddLink;
    assert after[chain[p]] == ResolveAt(before, chain, p);
  }

  /** Following `superseded_by` along a resolved list ends at its last entry. */
  lemma {:induction false} FollowAlong(before: seq<IntentEntry>, after: seq<IntentEntry>, chain: seq<nat>, p: nat,
                                       steps: nat)
    requires ChainResolved(before, after, chain) && UniqueIds(before) && p < |chain| && |chain| >= 2
    requires forall i :: 0 <= i < |before| ==> after[i].id == before[i].id
    requires steps >= |chain| - 1 - p
    ensures Follow(after, chain[p], steps) == chain[|chain| - 1]
    decreases steps
  {
    hide ResolveAt, IndexOfId;
    ChainStates(before, after, chain, p);
    if p + 1 < |chain| {
      IndexOfUnique(before, after, chain[p + 1]);
      FollowAlong(before, after, chain, p + 1, steps - 1);
    }
  }

  lemma IndexOfUnique(before: seq<IntentEntry>, after: seq<IntentEntry>, j: nat)
    requires UniqueIds(before) && j < |before| == |after|
    requires forall i :: 0 <= i < |before| ==> after[i].id == before[i].id
    ensures IndexOfId(after, before[j].id) == Some(j)
  {
    var found := IndexOfId(after, before[j].id);
    assert after[j].id == before[j].id;
  }

  /** A second run changes nothing: no state, no `supersededBy`, no link. */
  lemma SecondRunChangesNothing(before: seq<IntentEntry>, once: seq<IntentEntry>, twice: seq<IntentEntry>,
                                words: string -> string)
    requires Comparable(before, words) && Resolved(before, once, words) && Resolved(once, twice, words)
    ensures twice == once
  {
    hide AddLink, BeforeBy, IsNext, IsPrevious, Transitive, Resolve, TopicKey;
    CoreKept(before, once, words);
    forall i: nat | i < |before| ensures twice[i] == once[i] {
      var prev, next := Neighbours(before, words, i);
      ResolvedAt(before, once, words, i, prev, next);
      SameNeighbours(before, once, words, i, prev, next);
      ResolvedAt(once, twice, words, i, prev, next);
      ResolveTwice(before, once, i, prev, next);
    }
  }

  lemma SameNeighbours(before: seq<IntentEntry>, once: seq<IntentEntry>, words: string -> string, i: nat,
                       prev: Option<nat>, next: Option<nat>)
    requires Keys(once) == Keys(before)
    requires forall j: nat, k: nat :: SameTopic(once, words, j, k) <==> SameTopic(before, words, j, k)
    requires IsPrevious(before, words, i, prev) && IsNext(before, words, i, next)
    ensures IsPrevious(once, words, i, prev) && IsNext(once, words, i, next)
  {
    hide BeforeBy, SameTopic;
  }

  lemma ResolveTwice(before: seq<IntentEntry>, once: seq<IntentEntry>, i: nat, prev: Option<nat>, next: Option<nat>)
    requires i < |before| == |once| && (prev.Some? ==> prev.value < |before|) && (next.Some? ==> next.value < |before|)
    requires forall j :: 0 <= j < |before| ==> once[j].id == before[j].id
    requires once[i] == Resolve(before, i, prev, next)
    ensures Resolve(once, i, prev, next) == once[i]
  {
    if prev.Some? {
      assert once[prev.value].id == before[prev.value].id;
      assert once[i].links == AddLink(before[i].links, before[prev.value].id);
    }
  }

  predicate Tied(a: SortKey, b: SortKey) { CmpDatesFlexible(a.date, b.date) == Equal && a.confidence == b.confidence }

  /** No two members of one topic tie on date and confidence. */
  ghost predicate NoTies(es: seq<IntentEntry>, words: string -> string) {
    forall i: nat, j: nat :: i != j && SameTopic(es, words, i, j) ==> !Tied(Key(es[i]), Key(es[j]))
  }

  /** `b` lists the entries of `a` in another order: entry `i` of `a` stands at `place[i]` in `b`. */
  ghost predicate Rearranged(a: seq<IntentEntry>, b: seq<IntentEntry>, place: seq<nat>) {
    && |place| == |a| == |b| && Distinct(place) && InRange(place, |b|)
    && (forall i :: 0 <= i < |a| ==> b[place[i]] == a[i])
    && (forall j: nat :: j < |b| ==> j in place)
  }

  /** The final states do not depend on input order, as long as no two members of a topic tie. */
  lemma InputOrderIrrelevant(a: seq<IntentEntry>, a': seq<IntentEntry>, b: seq<IntentEntry>, b': seq<IntentEntry>,
                             place: seq<nat>, words: string -> string, i: nat)
    requires Rearranged(a, b, place) && NoTies(a, words) && Comparable(a, words)
    requires Resolved(a, a', words) && Resolved(b, b', words) && i < |a|
    ensures b'[place[i]] == a'[i]
  {
    hide AddLink, BeforeBy, IsNext, IsPrevious, Transitive, TopicKey, NoTies, SameTopic;
    var prev, next := Neighbours(a, words, i);
    ResolvedAt(a, a', words, i, prev, next);
    var prev' := if prev.Some? then Some(place[prev.value]) else None;
    var next' := if next.Some? then Some(place[next.value]) else None;
    MovedNext(a, b, place, words, i, next);
    MovedPrevious(a, b, place, words, i, prev);
    ResolvedAt(b, b', words, place[i], prev', next');
  }

  lemma MovedOrder(a: seq<IntentEntry>, b: seq<IntentEntry>, place: seq<nat>, words: string -> string, i: nat, j: nat)
    requires Rearranged(a, b, place) && NoTies(a, words) && i < |a| && j < |a|
    ensures SameTopic(b, words, place[i], place[j]) <==> SameTopic(a, words, i, j)
    ensures SameTopic(a, words, i, j) ==> (Before(b, place[i], place[j]) <==> Before(a, i, j))
  {
  }

  lemma MovedNext(a: seq<IntentEntry>, b: seq<IntentEntry>, place: seq<nat>, words: string -> string, i: nat,
      next: Option<nat>)
    requires Rearranged(a, b, place) && NoTies(a, words) && i < |a| && IsNext(a, words, i, next)
    ensures next.Some? ==> next.value < |a|
    ensures IsNext(b, words, place[i], if next.Some? then Some(place[next.value]) else None)
  {
    hide BeforeBy, TopicKey, NoTies;
    if next.Some? { MovedOrder(a, b, place, words, i, next.value); }
    forall k': nat | SameTopic(b, words, place[i], k') && Before(b, place[i], k')
      ensures next.Some? && (k' == place[next.value] || Before(b, place[next.value], k'))
    {
      assert k' < |b| && k' in place;
      var k: nat :| k < |place| && place[k] == k';
      MovedOrder(a, b, place, words, i, k);
      assert SameTopic(a, words, i, k);
      MovedOrder(a, b, place, words, next.value, k);
    }
  }

  lemma MovedPrevious(a: seq<IntentEntry>, b: seq<IntentEntry>, place: seq<nat>, words: string -> string, i: nat,
      prev: Option<nat>)
    requires Rearranged(a, b, place) && NoTies(a, words) && i < |a| && IsPrevious(a, words, i, prev)
    ensures prev.Some? ==> prev.value < |a|
    ensures IsPrevious(b, words, place[i], if prev.Some? then Some(place[prev.value]) else None)
  {
    hide BeforeBy, TopicKey, NoTies;
    if prev.Some? {
      MovedOrder(a, b, place, words, i, prev.value);
      MovedOrder(a, b, place, words, prev.value, i);
    }
    forall k': nat | SameTopic(b, words, place[i], k') && Before(b, k', place[i])
      ensures prev.Some? && (k' == place[prev.value] || Before(b, k', place[prev.value]))
    {
      assert k' < |b| && k' in place;
      var k: nat :| k < |place| && place[k] == k';
      MovedOrder(a, b, place, words, i, k);
      MovedOrder(a, b, place, words, k, i);
      assert SameTopic(a, words, i, k);
      MovedOrder(a, b, place, words, k, prev.value);
    }
  }

  /** Whatever stands between two tied members is tied with both, so only their positions order the three. */
  lemma BetweenTied(keys: seq<SortKey>, j: nat, n: nat, i: nat)
    requires BeforeBy(keys, j, n) && BeforeBy(keys, n, i) && Tied(keys[i], keys[j])
    requires keys[i].date.instant.Some? <==> keys[j].date.instant.Some?
    requires keys[i].date.instant.Some? <==> keys[n].date.instant.Some?
    ensures Tied(keys[j], keys[n]) && i < n < j
  {
    hide LexLeq;
    if keys[i].date.instant.None? {
      assert keys[i].date.text == keys[j].date.text;
      if keys[n].date.text != keys[j].date.text && LexLeq(keys[j].date.text, keys[n].date.text)
         && LexLeq(keys[n].date.text, keys[j].date.text) {
        LexAntisymmetric(keys[j].date.text, keys[n].date.text);
      }
    }
  }

  /** The list with the entries at `i` and `j` exchanged. */
  function Swapped(es: seq<IntentEntry>, i: nat, j: nat): seq<IntentEntry>
    requires i < |es| && j < |es|
  {
    es[i := es[j]][j := es[i]]
  }

  lemma SwapKeepsDates(es: seq<IntentEntry>, words: string -> string, i: nat, j: nat)
    requires DatesAlike(es, words) && i < |es| && j < |es|
    ensures DatesAlike(Swapped(es, i, j), words)
  {
    hide TopicKey;
    var b := Swapped(es, i, j);
    forall p: nat, q: nat | SameTopic(b, words, p, q)
      ensures b[p].date.instant.Some? <==> b[q].date.instant.Some?
    {
      var p0 := if p == i then j else if p == j then i else p;
      var q0 := if q == i then j else if q == j then i else q;
      assert b[p] == es[p0] && b[q] == es[q0];
      assert SameTopic(es, words, p0, q0);
    }
  }

  /** Exchanging two tied members changes what becomes of the later one: it loses its successor, or gets another. */
  lemma TiedSwapChanges(a: seq<IntentEntry>, a': seq<IntentEntry>, b': seq<IntentEntry>, words: string -> string,
                        i: nat, j: nat)
    requires DatesAlike(a, words) && UniqueIds(a) && i < j && SameTopic(a, words, i, j) && Tied(Key(a[i]), Key(a[j]))
    requires Resolved(a, a', words) && Resolved(Swapped(a, i, j), b', words)
    ensures b'[i] != a'[j]
  {
    hide AddLink, TopicKey, BeforeBy, Transitive;
    var b := Swapped(a, i, j);
    SwapKeepsDates(a, words, i, j);
    AlikeDatesCompare(a, words);
    AlikeDatesCompare(b, words);
    assert a[i].date.instant.Some? <==> a[j].date.instant.Some?;
    TiedByPosition(a, words, i, j);
    var prev, next := Neighbours(a, words, j);
    ResolvedAt(a, a', words, j, prev, next);
    assert SameTopic(a, words, j, i);
    var n := next.value;
    TiedByPosition(b, words, i, j);
    var prev', next' := Neighbours(b, words, i);
    ResolvedAt(b, b', words, i, prev', next');
    assert SameTopic(b, words, i, j);
    assert prev'.Some?;
    if next'.Some? && b[next'.value].id == a[n].id {
      var m := next'.value;
      assert m == if n == i then j else if n == j then i else n by { SameIdSamePlace(a, i, j, m, n); }
      NoSuccessorThere(a, words, i, j, n, m);
    }
  }

  lemma TiedByPosition(es: seq<IntentEntry>, words: string -> string, i: nat, j: nat)
    requires i < j < |es| && Tied(Key(es[i]), Key(es[j])) && (es[i].date.instant.Some? <==> es[j].date.instant.Some?)
    ensures Before(es, j, i) && !Before(es, i, j)
  {
  }

  lemma SameIdSamePlace(a: seq<IntentEntry>, i: nat, j: nat, m: nat, n: nat)
    requires UniqueIds(a) && i < |a| && j < |a| && m < |a| && n < |a| && Swapped(a, i, j)[m].id == a[n].id
    ensures m == if n == i then j else if n == j then i else n
  {
    var m0 := if m == i then j else if m == j then i else m;
    assert Swapped(a, i, j)[m] == a[m0];
    assert m0 == n;
  }

  lemma NoSuccessorThere(a: seq<IntentEntry>, words: string -> string, i: nat, j: nat, n: nat, m: nat)
    requires DatesAlike(a, words) && i < j && SameTopic(a, words, i, j) && Tied(Key(a[i]), Key(a[j]))
    requires IsNext(a, words, j, Some(n)) && m == (if n == i then j else if n == j then i else n) && n < |a|
    ensures !Before(Swapped(a, i, j), i, m)
  {
    hide TopicKey, LexLeq;
    var b := Swapped(a, i, j);
    TiedByPosition(a, words, i, j);
    assert SameTopic(a, words, j, i);
    if n == i {
      TiedByPosition(b, words, i, j);
    } else {
      assert n != j && Before(a, j, n) && Before(a, n, i) by { hide BeforeBy; NotBeforeItself(a, j); }
      assert SameTopic(a, words, i, n);
      BetweenTied(Keys(a), j, n, i);
      assert b[i] == a[j] && b[n] == a[n];
    }
  }

  lemma NotBeforeItself(es: seq<IntentEntry>, i: nat)
    ensures !Before(es, i, i)
  {
  }

  /** The pass always has a result. */
  lemma ResultExists(es: seq<IntentEntry>, words: string -> string) returns (after: seq<IntentEntry>)
    requires Comparable(es, words)
    ensures Resolved(es, after, words)
  {
    hide AddLink, IsNext, IsPrevious, Transitive, Resolve;
    after := [];
    while |after| < |es|
      invariant |after| <= |es|
      invariant forall i: nat, prev, next ::
                  i < |after| && IsPrevious(es, words, i, prev) && IsNext(es, words, i, next) ==>
                    NeighboursInRange(es, prev, next) && after[i] == Resolve(es, i, prev, next)
    {
      var i := |after|;
      var prev, next := Neighbours(es, words, i);
      NeighboursAreInRange(es, words, i, prev, next);
      after := after + [Resolve(es, i, prev, next)];
      forall p, n | IsPrevious(es, words, i, p) && IsNext(es, words, i, n)
        ensures p == prev && n == next
      {
        PreviousUnique(es, words, i, p, prev);
        NextUnique(es, words, i, n, next);
      }
    }
  }

  predicate NeighboursInRange(es: seq<IntentEntry>, prev: Option<nat>, next: Option<nat>) {
    (prev.Some? ==> prev.value < |es|) && (next.Some? ==> next.value < |es|)
  }

  lemma NeighboursAreInRange(es: seq<IntentEntry>, words: string -> string, i: nat, prev: Option<nat>,
                             next: Option<nat>)
    requires IsPrevious(es, words, i, prev) && IsNext(es, words, i, next)
    ensures NeighboursInRange(es, prev, next)
  {
  }

  /** Every rearrangement of the input gives every entry the same outcome. */
  ghost predicate OrderIrrelevant(a: seq<IntentEntry>, words: string -> string) {
    forall a', b, b', place ::
      Rearranged(a, b, place) && Resolved(a, a', words) && Resolved(b, b', words) ==> SameOutcomes(a', b', place)
  }

  ghost predicate SameOutcomes(a': seq<IntentEntry>, b': seq<IntentEntry>, place: seq<nat>) {
    |place| == |a'| && forall i :: 0 <= i < |place| ==> place[i] < |b'| && b'[place[i]] == a'[i]
  }

  lemma SwapRearranges(a: seq<IntentEntry>, i: nat, j: nat) returns (place: seq<nat>)
    requires i < |a| && j < |a|
    ensures Rearranged(a, Swapped(a, i, j), place) && place[j] == i
  {
    place := seq(|a|, k requires 0 <= k < |a| => if k == i then j else if k == j then i else k as nat);
    var b := Swapped(a, i, j);
    forall k: nat | k < |b|
      ensures k in place
    {
      assert place[if k == i then j else if k == j then i else k] == k;
    }
  }

  /** With distinct ids, and dates alike in each topic, the outcome is independent of the input order if and only if no two members of a topic tie. */
  lemma OrderIrrelevantIff(a: seq<IntentEntry>, words: string -> string)
    requires DatesAlike(a, words) && UniqueIds(a)
    ensures OrderIrrelevant(a, words) <==> NoTies(a, words)
  {
    hide Resolved, Transitive, DatesAlike, Rearranged, TopicKey, UniqueIds, Swapped, Tied, Key;
    AlikeDatesCompare(a, words);
    if NoTies(a, words) {
      forall a', b, b', place | Rearranged(a, b, place) && Resolved(a, a', words) && Resolved(b, b', words)
        ensures SameOutcomes(a', b', place)
      {
        NoTiesSameOutcomes(a, a', b, b', place, words);
      }
    }
    if !NoTies(a, words) {
      var p: nat, q: nat :| p != q && SameTopic(a, words, p, q) && Tied(Key(a[p]), Key(a[q]));
      TieIsMutual(a[p], a[q]);
      var i, j := if p < q then p else q, if p < q then q else p;
      assert SameTopic(a, words, i, j);
      TieShows(a, words, i, j);
    }
  }

  lemma TieShows(a: seq<IntentEntry>, words: string -> string, i: nat, j: nat)
    requires DatesAlike(a, words) && UniqueIds(a) && i < j && SameTopic(a, words, i, j) && Tied(Key(a[i]), Key(a[j]))
    ensures !OrderIrrelevant(a, words)
  {
    hide Resolved, Transitive, DatesAlike, Rearranged, TopicKey, UniqueIds, Swapped, Tied, Key;
    var place := SwapRearranges(a, i, j);
    SwapKeepsDates(a, words, i, j);
    AlikeDatesCompare(a, words);
    AlikeDatesCompare(Swapped(a, i, j), words);
    var a' := ResultExists(a, words);
    var b' := ResultExists(Swapped(a, i, j), words);
    TiedSwapChanges(a, a', b', words, i, j);
    assert !SameOutcomes(a', b', place);
  }

  lemma NoTiesSameOutcomes(a: seq<IntentEntry>, a': seq<IntentEntry>, b: seq<IntentEntry>, b': seq<IntentEntry>,
                           place: seq<nat>, words: string -> string)
    requires Rearranged(a, b, place) && NoTies(a, words) && Comparable(a, words)
    requires Resolved(a, a', words) && Resolved(b, b', words)
    ensures SameOutcomes(a', b', place)
  {
    hide IsNext, IsPrevious, Resolve, NoTies, Transitive;
    forall i: nat | i < |place|
      ensures place[i] < |b'| && b'[place[i]] == a'[i]
    {
      InputOrderIrrelevant(a, a', b, b', place, words, i);
    }
  }

  lemma TieIsMutual(a: IntentEntry, b: IntentEntry)
    ensures Tied(Key(a), Key(b)) ==> Tied(Key(b), Key(a))
  {
  }

  /** It can fail to be transitive: with one unparsable date among two that parse, the comparison is a cycle. Instants
      here are hours. */
  lemma MixedDatesCycle()
    ensures exists a, b, c :: CmpDatesFlexible(a, c) == Less && CmpDatesFlexible(c, b) == Less
                              && CmpDatesFlexible(b, a) == Less
  {
    hide LexLeq;
    var day := "2026-01-01";
    var a := FlexDate(day + "T23:00:00-05:00", Some(28));
    var b := FlexDate("2026-01-0" + "2", Some(24));
    var c := FlexDate(day + "Z", None);
    LexCommon(day, "T23:00:00-05:00", "Z");
    LexCommon("2026-01-0", "1Z", "2");
    assert c.text == "2026-01-0" + "1Z";
    assert CmpDatesFlexible(a, c) == Less;
    assert CmpDatesFlexible(c, b) == Less;
    assert CmpDatesFlexible(b, a) == Less;
  }

  lemma {:induction false} LexCommon(pre: string, x: string, y: string)
    requires x != [] && y != [] && x[0] < y[0]
    ensures LexLeq(pre + x, pre + y) && pre + x != pre + y
  {
    if pre == [] {
      assert pre + x == x && pre + y == y;
    } else {
      assert (pre + x)[1..] == pre[1..] + x && (pre + y)[1..] == pre[1..] + y;
      LexCommon(pre[1..], x, y);
    }
  }
}

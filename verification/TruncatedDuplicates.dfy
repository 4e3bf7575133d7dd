/** Removal of records cut short when a fuller sibling exists (`drop_truncated_duplicate_records`,
    src/intents.rs). The source replaced an all-pairs scan by a per-group index; the two agree. */
module TruncatedDuplicates {
  import opened Ordering
  import opened Text
  import IntentMerge

  const TRUNC_MARKER := "...[truncated]"

  datatype Record = Record(kind: IntentMerge.IntentKind, sessionId: string, sourceChunk: string, summary: string,
                           evidence: seq<string>)

  datatype GroupKey = GroupKey(kind: IntentMerge.IntentKind, sessionId: string, sourceChunk: string)

  function GroupOf(r: Record): GroupKey { GroupKey(r.kind, r.sessionId, r.sourceChunk) }

  predicate Truncated(r: Record) { SplitOnce(r.summary, TRUNC_MARKER).Some? }

  /** The text before the first marker, without trailing blanks. */
  function KeptPrefix(r: Record): string {
    match SplitOnce(r.summary, TRUNC_MARKER)
    case None => TrimEnd(r.summary)
    case Some((head, _)) => TrimEnd(head)
  }

  /** `other` is longer and continues what `r` kept. */
  predicate Continues(r: Record, other: Record) {
    ByteLen(other.summary) > ByteLen(r.summary) && StartsWith(other.summary, KeptPrefix(r))
  }

  // The all-pairs rule

  predicate Fuller(r: Record, other: Record) {
    !Truncated(other) && GroupOf(other) == GroupOf(r) && Continues(r, other)
  }

  predicate Redundant(r: Record, records: seq<Record>) {
    Truncated(r) && KeptPrefix(r) != [] && exists k :: 0 <= k < |records| && Fuller(r, records[k])
  }

  function AllPairs(records: seq<Record>): seq<Record> {
    Filter(records, (r: Record) => !Redundant(r, records))
  }

  // The indexed form

  /** Indices below `n` of untruncated records in a group. */
  function GroupUpTo(records: seq<Record>, key: GroupKey, n: nat): seq<nat>
    requires n <= |records|
  {
    if n == 0 then []
    else
      GroupUpTo(records, key, n - 1)
      + (if !Truncated(records[n - 1]) && GroupOf(records[n - 1]) == key then [n - 1] else [])
  }

  lemma {:induction false} GroupMembers(records: seq<Record>, key: GroupKey, n: nat)
    requires n <= |records|
    ensures forall k: nat :: k in GroupUpTo(records, key, n)
                             <==> k < n && !Truncated(records[k]) && GroupOf(records[k]) == key
  {
    if n > 0 { GroupMembers(records, key, n - 1); }
  }

  lemma GroupSnoc(records: seq<Record>, key: GroupKey, n: nat)
    requires n < |records|
    ensures !Truncated(records[n]) && GroupOf(records[n]) == key ==>
              GroupUpTo(records, key, n + 1) == GroupUpTo(records, key, n) + [n]
    ensures Truncated(records[n]) || GroupOf(records[n]) != key ==>
              GroupUpTo(records, key, n + 1) == GroupUpTo(records, key, n)
  {
    hide Truncated, GroupOf;
  }

  /** `groups` holds, for each group with an untruncated record among the first `n`, the indices of those. */
  ghost predicate Indexed(groups: map<GroupKey, seq<nat>>, records: seq<Record>, n: nat)
    requires n <= |records|
  {
    && (forall key :: key in groups <==> GroupUpTo(records, key, n) != [])
    && (forall key :: key in groups ==> groups[key] == GroupUpTo(records, key, n))
  }

  lemma IndexSkip(groups: map<GroupKey, seq<nat>>, records: seq<Record>, n: nat)
    requires n < |records| && Indexed(groups, records, n) && Truncated(records[n])
    ensures Indexed(groups, records, n + 1)
  {
    hide Truncated, GroupOf, GroupUpTo;
    forall key: GroupKey
      ensures GroupUpTo(records, key, n + 1) == GroupUpTo(records, key, n)
    {
      GroupSnoc(records, key, n);
    }
  }

  lemma IndexAdd(groups: map<GroupKey, seq<nat>>, records: seq<Record>, n: nat)
    requires n < |records| && Indexed(groups, records, n) && !Truncated(records[n])
    ensures var own := GroupOf(records[n]);
            Indexed(groups[own := (if own in groups then groups[own] else []) + [n]], records, n + 1)
  {
    hide Truncated, GroupOf, GroupUpTo;
    var own := GroupOf(records[n]);
    GroupSnoc(records, own, n);
    forall key: GroupKey | key != own
      ensures GroupUpTo(records, key, n + 1) == GroupUpTo(records, key, n)
    {
      GroupSnoc(records, key, n);
    }
  }

  lemma NothingIndexed(records: seq<Record>)
    ensures Indexed(map[], records, 0)
  {
  }

  method IndexGroups(records: seq<Record>) returns (groups: map<GroupKey, seq<nat>>)
    ensures Indexed(groups, records, |records|)
  {
    hide Truncated, GroupOf, Indexed, GroupUpTo;
    groups := map[];
    NothingIndexed(records);
    for i := 0 to |records|
      invariant Indexed(groups, records, i)
    {
      if !Truncated(records[i]) {
        IndexAdd(groups, records, i);
        var key := GroupOf(records[i]);
        var have := if key in groups then groups[key] else [];
        groups := groups[key := have + [i]];
      } else {
        IndexSkip(groups, records, i);
      }
    }
  }

  /** Whether the record at `idx` stays, looking only at its own group. */
  method Keeps(records: seq<Record>, groups: map<GroupKey, seq<nat>>, idx: nat) returns (keep: bool)
    requires idx < |records|
    requires Indexed(groups, records, |records|)
    ensures keep <==> !Redundant(records[idx], records)
  {
    hide Continues, Truncated, KeptPrefix, GroupUpTo, GroupOf;
    var r := records[idx];
    if !Truncated(r) {
      return true;
    }
    var prefix := KeptPrefix(r);
    if prefix == [] {
      return true;
    }
    GroupDecides(records, r);
    if GroupOf(r) !in groups {
      return true;
    }
    var siblings := groups[GroupOf(r)];
    for s := 0 to |siblings|
      invariant forall q :: 0 <= q < s ==> siblings[q] < |records| && !Continues(r, records[siblings[q]])
    {
      var other := siblings[s];
      if other != idx && Continues(r, records[other]) {
        return false;
      }
    }
    return true;
  }

  /** Some record is fuller exactly when an indexed sibling continues the truncated one; siblings are
      untruncated, so a truncated record is never its own sibling. */
  lemma GroupDecides(records: seq<Record>, r: Record)
    ensures var siblings := GroupUpTo(records, GroupOf(r), |records|);
            && (forall q :: 0 <= q < |siblings| ==> siblings[q] < |records| && !Truncated(records[siblings[q]]))
            && ((exists k :: 0 <= k < |records| && Fuller(r, records[k]))
                <==> exists q :: 0 <= q < |siblings| && Continues(r, records[siblings[q]]))
  {
    hide Continues, Truncated, GroupUpTo, GroupOf;
    var siblings := GroupUpTo(records, GroupOf(r), |records|);
    GroupMembers(records, GroupOf(r), |records|);
    forall q | 0 <= q < |siblings|
      ensures siblings[q] < |records| && !Truncated(records[siblings[q]]) && GroupOf(records[siblings[q]]) == GroupOf(r)
    {
      assert siblings[q] in siblings;
    }
    if k :| 0 <= k < |records| && Fuller(r, records[k]) {
      assert k in siblings;
      var q :| 0 <= q < |siblings| && siblings[q] == k;
      assert Continues(r, records[siblings[q]]);
    }
    if q :| 0 <= q < |siblings| && Continues(r, records[siblings[q]]) {
      assert Fuller(r, records[siblings[q]]);
    }
  }

  method DropTruncatedDuplicates(records: seq<Record>) returns (kept: seq<Record>)
    ensures kept == AllPairs(records)
  {
    hide Redundant;
    var groups := IndexGroups(records);
    kept := [];
    var stays := (r: Record) => !Redundant(r, records);
    for i := 0 to |records|
      invariant kept == Filter(records[..i], stays)
    {
      var keep := Keeps(records, groups, i);
      assert records[..i + 1] == records[..i] + [records[i]];
      FilterAppend(records[..i], [records[i]], stays);
      FilterHead([records[i]], stays);
      if keep {
        kept := kept + [records[i]];
      }
    }
    assert records[..|records|] == records;
  }

  // What the rule guarantees

  /** `p` is what stands before the first marker, less the whitespace at its end. */
  ghost predicate KeptHead(summary: string, p: string) {
    exists i: nat :: FirstMarker(summary, i) && HeadOf(summary[..i], p)
  }

  ghost predicate FirstMarker(summary: string, i: nat) {
    i <= |summary| && Occurs(summary, "...[truncated]", i)
    && forall j: nat :: j < i ==> !Occurs(summary, "...[truncated]", j)
  }

  predicate HeadOf(head: string, p: string) {
    p <= head && Blank(head[|p|..]) && (p == "" || !IsWhitespace(p[|p| - 1]))
  }

  /** `other` is of the same kind, session and chunk, was not cut, is longer in bytes, and starts with `p`. */
  ghost predicate Sibling(r: Record, p: string, other: Record) {
    && other.kind == r.kind && other.sessionId == r.sessionId && other.sourceChunk == r.sourceChunk
    && (forall i: nat :: !Occurs(other.summary, "...[truncated]", i))
    && ByteLen(other.summary) > ByteLen(r.summary) && p <= other.summary
  }

  /** When a record goes: it was cut, something was kept of it, and a fuller sibling that was not cut starts with what
      was kept. */
  lemma DroppedIff(records: seq<Record>, r: Record)
    requires r in records
    ensures r !in AllPairs(records)
            <==> exists p: string, other: Record ::
                   p != "" && KeptHead(r.summary, p) && other in records && Sibling(r, p, other)
  {
    FilterMembers(records, (s: Record) => !Redundant(s, records));
    CutMeans(r);
    assert r !in AllPairs(records) <==> Redundant(r, records);
    forall k | 0 <= k < |records|
      ensures Fuller(r, records[k]) <==> Sibling(r, KeptPrefix(r), records[k])
    {
      CutMeans(records[k]);
    }
    hide KeptHead, Truncated, KeptPrefix, Sibling, Fuller;
    if Redundant(r, records) {
      var k :| 0 <= k < |records| && Fuller(r, records[k]);
      assert records[k] in records && Sibling(r, KeptPrefix(r), records[k]);
    }
    if p: string, other: Record :| p != "" && KeptHead(r.summary, p) && other in records && Sibling(r, p, other) {
      var k :| 0 <= k < |records| && records[k] == other;
      assert Fuller(r, records[k]);
    }
  }

  lemma CutMeans(r: Record)
    ensures Truncated(r) <==> exists i: nat :: Occurs(r.summary, "...[truncated]", i)
    ensures forall p :: KeptHead(r.summary, p) <==> Truncated(r) && p == KeptPrefix(r)
  {
    SplitOnceMeans(r.summary, TRUNC_MARKER);
    match SplitOnce(r.summary, TRUNC_MARKER)
    case None =>
    case Some((head, _)) =>
      assert r.summary[..|head|] == head && FirstMarker(r.summary, |head|);
      TrimEndMeans(head);
      hide SplitOnce, TrimEnd, Occurs;
      forall p
        ensures KeptHead(r.summary, p) <==> p == TrimEnd(head)
      {
        if i: nat :| FirstMarker(r.summary, i) && HeadOf(r.summary[..i], p) {
          assert i == |head| by { assert !(i < |head|) && !(|head| < i); }
          OneHead(head, p, TrimEnd(head));
        }
      }
  }

  lemma OneHead(head: string, p: string, q: string)
    requires HeadOf(head, p) && HeadOf(head, q)
    ensures p == q
  {
    hide IsWhitespace;
    assert p == head[..|p|] && q == head[..|q|];
    assert forall i :: |p| <= i < |head| ==> IsWhitespace(head[i]) by {
      forall i | |p| <= i < |head| ensures IsWhitespace(head[i]) { assert head[|p|..][i - |p|] == head[i]; }
    }
    assert forall i :: |q| <= i < |head| ==> IsWhitespace(head[i]) by {
      forall i | |q| <= i < |head| ensures IsWhitespace(head[i]) { assert head[|q|..][i - |q|] == head[i]; }
    }
  }

  /** A second pass removes nothing more. */
  lemma PassIsIdempotent(records: seq<Record>)
    ensures AllPairs(AllPairs(records)) == AllPairs(records)
  {
    hide Fuller, Truncated, KeptPrefix;
    var stays := (r: Record) => !Redundant(r, records);
    var kept := AllPairs(records);
    FilterMembers(records, stays);
    forall i | 0 <= i < |kept| ensures !Redundant(kept[i], kept) {
      // a fuller sibling among the kept records was one among all records
    }
    FilterAll(kept, (r: Record) => !Redundant(r, kept));
  }

  /** Untruncated records all survive, in order; so every removed record leaves a fuller sibling. */
  lemma UntruncatedSurvive(records: seq<Record>)
    ensures Filter(AllPairs(records), (r: Record) => !Truncated(r)) == Filter(records, (r: Record) => !Truncated(r))
    ensures forall i :: 0 <= i < |records| && records[i] !in AllPairs(records) ==>
              exists k :: 0 <= k < |AllPairs(records)| && Fuller(records[i], AllPairs(records)[k])
  {
    hide Fuller, Truncated, KeptPrefix;
    var stays := (r: Record) => !Redundant(r, records);
    FilterTwice(records, stays, (r: Record) => !Truncated(r));
    FilterMembers(records, stays);
    forall i | 0 <= i < |records| && records[i] !in AllPairs(records)
      ensures exists k :: 0 <= k < |AllPairs(records)| && Fuller(records[i], AllPairs(records)[k])
    {
      assert !stays(records[i]);
      var m :| 0 <= m < |records| && Fuller(records[i], records[m]);
      FullerIsUntruncated(records[i], records[m]);
      assert stays(records[m]);
      var k :| 0 <= k < |AllPairs(records)| && AllPairs(records)[k] == records[m];
    }
  }

  lemma FullerIsUntruncated(r: Record, other: Record)
    requires Fuller(r, other)
    ensures !Truncated(other)
  {
  }

  lemma {:induction false} FilterTwice<T>(s: seq<T>, wide: T -> bool, narrow: T -> bool)
    requires forall i :: 0 <= i < |s| && narrow(s[i]) ==> wide(s[i])
    ensures Filter(Filter(s, wide), narrow) == Filter(s, narrow)
  {
    if s != [] {
      FilterTwice(s[1..], wide, narrow);
    }
  }
}

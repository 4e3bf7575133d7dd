/** Canonical project slugs (`canonicalize_project_slug`, src/catalog.rs). */
module ProjectSlug {
  import opened Ordering
  import opened Text

  function Lower(c: char): char { if 'A' <= c <= 'Z' then c + (32 as char) else c }

  function LowerAll(s: string): (r: string)
    ensures |r| == |s| && forall i :: 0 <= i < |s| ==> r[i] == Lower(s[i])
  {
    Map(Lower, s)
  }

  function JoinWith(parts: seq<string>, sep: char): string {
    if parts == [] then []
    else if |parts| == 1 then parts[0]
    else parts[0] + [sep] + JoinWith(parts[1..], sep)
  }

  predicate NotBlank(s: string) { !Blank(s) }

  function Clean(segment: string): string { LowerAll(Trim(segment)) }

  function CanonicalizeProjectSlug(raw: string): string {
    JoinWith(Map(Clean, Filter(Fields(ReplaceChar(raw, '\\', '/'), '/'), NotBlank)), '/')
  }

  /** A segment that cleaning leaves alone. */
  predicate CleanSegment(s: string) {
    && s != [] && !IsWhitespace(s[0]) && !IsWhitespace(s[|s| - 1])
    && forall i :: 0 <= i < |s| ==> s[i] != '/' && s[i] != '\\' && !('A' <= s[i] <= 'Z')
  }

  predicate CanonicalSlug(s: string) {
    s == [] || forall i :: 0 <= i < |Fields(s, '/')| ==> CleanSegment(Fields(s, '/')[i])
  }

  lemma {:induction false} FieldsOfJoin(parts: seq<string>, sep: char)
    requires parts != [] && forall i :: 0 <= i < |parts| ==> sep !in parts[i]
    ensures Fields(JoinWith(parts, sep), sep) == parts
    decreases |parts|
  {
    if |parts| == 1 {
      FieldsOfOne(parts[0], sep);
    } else {
      FieldsOfJoin(parts[1..], sep);
      FieldsCut(parts[0], sep, JoinWith(parts[1..], sep));
      assert parts == [parts[0]] + parts[1..];
    }
  }

  lemma {:induction false} JoinOfFields(s: string, sep: char)
    ensures JoinWith(Fields(s, sep), sep) == s
  {
    if s != [] {
      JoinOfFields(s[1..], sep);
      var rest, all := Fields(s[1..], sep), Fields(s, sep);
      assert s == [s[0]] + s[1..];
      if s[0] == sep {
        assert all[1..] == rest;
      } else if |rest| > 1 {
        assert all[1..] == rest[1..];
        assert s == [s[0]] + (rest[0] + [sep] + JoinWith(rest[1..], sep));
      }
    }
  }

  lemma {:induction false} TrimStartEdges(s: string)
    requires !Blank(s)
    ensures TrimStart(s) != [] && !IsWhitespace(TrimStart(s)[0])
    ensures TrimStart(s)[|TrimStart(s)| - 1] == s[|s| - 1]
    ensures forall c :: c in TrimStart(s) ==> c in s
    ensures !Blank(TrimStart(s))
  {
    hide IsWhitespace;
    if IsWhitespace(s[0]) {
      assert !Blank(s[1..]);
      TrimStartEdges(s[1..]);
    }
  }

  lemma {:induction false} TrimEndEdges(s: string)
    requires s != [] && !IsWhitespace(s[0])
    ensures TrimEnd(s) != [] && TrimEnd(s)[0] == s[0] && !IsWhitespace(TrimEnd(s)[|TrimEnd(s)| - 1])
  {
    hide IsWhitespace;
    if IsWhitespace(s[|s| - 1]) { TrimEndEdges(s[..|s| - 1]); }
  }

  lemma CleanedIsClean(segment: string)
    requires !Blank(segment) && '/' !in segment && '\\' !in segment
    ensures CleanSegment(Clean(segment))
  {
    hide TrimStart, TrimEnd;
    TrimStartEdges(segment);
    var t := TrimStart(segment);
    TrimEndEdges(t);
    var u := TrimEnd(t);
    assert u == Trim(segment);
    assert forall i :: 0 <= i < |u| ==> u[i] == t[i] && t[i] in t;
  }

  lemma CleanKeepsClean(segment: string)
    requires CleanSegment(segment)
    ensures Clean(segment) == segment && !Blank(segment)
  {
    assert Trim(segment) == segment;
  }

  lemma {:induction false} MapFixes(s: seq<string>)
    requires forall i :: 0 <= i < |s| ==> Clean(s[i]) == s[i]
    ensures Map(Clean, s) == s
  {
    hide Clean;
  }

  lemma FieldsLackBackslash(raw: string)
    ensures var parts := Fields(ReplaceChar(raw, '\\', '/'), '/');
            forall part :: part in parts ==> '\\' !in part && '/' !in part
  {
    var plain := ReplaceChar(raw, '\\', '/');
    assert '\\' !in plain;
    FieldsWithin(plain, '/');
  }

  lemma {:induction false} FieldsWithin(s: string, sep: char)
    ensures forall i, c :: 0 <= i < |Fields(s, sep)| && c in Fields(s, sep)[i] ==> c in s
  {
    if s != [] {
      FieldsWithin(s[1..], sep);
      var rest := Fields(s[1..], sep);
      assert forall c :: c in [s[0]] + rest[0] ==> c == s[0] || c in rest[0];
      assert forall c :: c in s[1..] ==> c in s;
    }
  }

  /** The slugs that canonicalization leaves alone are exactly the canonical ones, and its result always is one;
      so applying it again changes nothing. */
  lemma CanonicalizeIsProjection(raw: string)
    ensures CanonicalSlug(CanonicalizeProjectSlug(raw))
    ensures CanonicalizeProjectSlug(raw) == raw <==> CanonicalSlug(raw)
    ensures CanonicalizeProjectSlug(CanonicalizeProjectSlug(raw)) == CanonicalizeProjectSlug(raw)
  {
    hide CanonicalizeProjectSlug;
    ResultIsCanonical(raw);
    if CanonicalSlug(raw) { CanonicalIsFixed(raw); }
    CanonicalIsFixed(CanonicalizeProjectSlug(raw));
  }

  lemma ResultIsCanonical(raw: string)
    ensures CanonicalSlug(CanonicalizeProjectSlug(raw))
  {
    hide Clean, CleanSegment, Fields, Filter;
    var fields := Fields(ReplaceChar(raw, '\\', '/'), '/');
    var kept := Filter(fields, NotBlank);
    var parts := Map(Clean, kept);
    FieldsLackBackslash(raw);
    FilterMembers(fields, NotBlank);
    forall i | 0 <= i < |parts|
      ensures CleanSegment(parts[i])
    {
      assert kept[i] in kept && kept[i] in fields;
      CleanedIsClean(kept[i]);
    }
    if parts != [] {
      forall i | 0 <= i < |parts|
        ensures '/' !in parts[i]
      {
        CleanHasNoSlash(parts[i]);
      }
      FieldsOfJoin(parts, '/');
    }
  }

  lemma CleanHasNoSlash(s: string)
    requires CleanSegment(s)
    ensures '/' !in s && '\\' !in s
  {
  }

  lemma CanonicalIsFixed(s: string)
    requires CanonicalSlug(s)
    ensures CanonicalizeProjectSlug(s) == s
  {
    hide Clean, CleanSegment, Blank;
    if s == [] {
      assert ReplaceChar(s, '\\', '/') == [];
      assert Fields([], '/') == [[]];
      assert !NotBlank([]) by { EmptyIsBlank(); }
      assert Filter([[]], NotBlank) == [];
    } else {
      var parts := Fields(s, '/');
      forall i | 0 <= i < |parts|
        ensures NotBlank(parts[i]) && Clean(parts[i]) == parts[i]
      {
        CleanKeepsClean(parts[i]);
      }
      JoinOfFields(s, '/');
      NoBackslash(s);
      assert ReplaceChar(s, '\\', '/') == s;
      FilterAll(parts, NotBlank);
      MapFixes(parts);
    }
  }

  // ---- Which slugs coincide

  /** The same character, or the two cases of one ASCII letter. */
  predicate CaseTwins(a: char, b: char) {
    || a == b
    || ('A' <= a <= 'Z' && b as int == a as int + 32)
    || ('A' <= b <= 'Z' && a as int == b as int + 32)
  }

  predicate SameUpToCase(a: string, b: string) {
    |a| == |b| && forall i :: 0 <= i < |a| ==> CaseTwins(a[i], b[i])
  }

  lemma LowerMeans(a: string, b: string)
    ensures LowerAll(a) == LowerAll(b) <==> SameUpToCase(a, b)
  {
    assert forall c: char, d: char :: Lower(c) == Lower(d) <==> CaseTwins(c, d);
    hide Lower, CaseTwins;
    if LowerAll(a) == LowerAll(b) {
      forall i | 0 <= i < |a|
        ensures CaseTwins(a[i], b[i])
      {
        assert LowerAll(a)[i] == LowerAll(b)[i];
      }
    }
    if SameUpToCase(a, b) {
      assert forall i :: 0 <= i < |a| ==> LowerAll(a)[i] == LowerAll(b)[i];
    }
  }

  /** The trimmed segments between slashes of either kind, blank ones left out. */
  function Segments(raw: string): seq<string> {
    Map(Trim, Filter(Fields(ReplaceChar(raw, '\\', '/'), '/'), NotBlank))
  }

  /** Two names yield one slug exactly when they have the same segments up to the case of letters. */
  lemma SameSlugIff(a: string, b: string)
    ensures CanonicalizeProjectSlug(a) == CanonicalizeProjectSlug(b)
            <==> && |Segments(a)| == |Segments(b)|
                 && forall i :: 0 <= i < |Segments(a)| ==> SameUpToCase(Segments(a)[i], Segments(b)[i])
  {
    hide Fields, Filter, Trim, LowerAll, SameUpToCase, CleanSegment, JoinWith, Blank;
    var p, q := Parts(a), Parts(b);
    SlugOfParts(a);
    SlugOfParts(b);
    forall i | 0 <= i < |p| && i < |q| { LowerMeans(Segments(a)[i], Segments(b)[i]); }
    if CanonicalizeProjectSlug(a) == CanonicalizeProjectSlug(b) {
      JoinIsInjective(p, q);
    }
    if |Segments(a)| == |Segments(b)|
       && forall i :: 0 <= i < |Segments(a)| ==> SameUpToCase(Segments(a)[i], Segments(b)[i]) {
      assert p == q;
    }
  }

  function Parts(raw: string): seq<string> { Map(LowerAll, Segments(raw)) }

  lemma SlugOfParts(raw: string)
    ensures CanonicalizeProjectSlug(raw) == JoinWith(Parts(raw), '/')
    ensures forall i :: 0 <= i < |Parts(raw)| ==> CleanSegment(Parts(raw)[i])
  {
    hide Clean, CleanSegment, Fields, Filter, JoinWith, NotBlank;
    var fields := Fields(ReplaceChar(raw, '\\', '/'), '/');
    var kept := Filter(fields, NotBlank);
    FieldsLackBackslash(raw);
    FilterMembers(fields, NotBlank);
    forall i | 0 <= i < |kept|
      ensures Clean(kept[i]) == Parts(raw)[i] && CleanSegment(Clean(kept[i]))
    {
      assert kept[i] in kept && kept[i] in fields;
      CleanMeans(kept[i]);
      CleanedIsClean(kept[i]);
    }
    assert Map(Clean, kept) == Parts(raw);
  }

  lemma CleanMeans(segment: string)
    ensures Clean(segment) == LowerAll(Trim(segment)) && (NotBlank(segment) <==> !Blank(segment))
  {
  }

  lemma JoinIsInjective(p: seq<string>, q: seq<string>)
    requires JoinWith(p, '/') == JoinWith(q, '/')
    requires forall i :: 0 <= i < |p| ==> CleanSegment(p[i])
    requires forall i :: 0 <= i < |q| ==> CleanSegment(q[i])
    ensures p == q
  {
    forall i | 0 <= i < |p| { CleanHasNoSlash(p[i]); }
    forall i | 0 <= i < |q| { CleanHasNoSlash(q[i]); }
    assert p != [] ==> JoinWith(p, '/') != [] by { if p != [] { assert p[0] != []; } }
    assert q != [] ==> JoinWith(q, '/') != [] by { if q != [] { assert q[0] != []; } }
    hide CleanSegment;
    if p != [] && q != [] {
      FieldsOfJoin(p, '/');
      FieldsOfJoin(q, '/');
    }
  }

  lemma EmptyIsBlank()
    ensures Blank([])
  {
  }

  lemma {:induction false} NoBackslash(s: string)
    requires forall i :: 0 <= i < |Fields(s, '/')| ==> CleanSegment(Fields(s, '/')[i])
    ensures '\\' !in s
  {
    hide CleanSegment;
    forall i | 0 <= i < |s|
      ensures s[i] != '\\'
    {
      if s[i] != '/' {
        var j := FieldOf(s, '/', i);
        CleanHasNoSlash(Fields(s, '/')[j]);
      }
    }
  }

  lemma {:induction false} FieldOf(s: string, sep: char, i: nat) returns (j: nat)
    requires i < |s| && s[i] != sep
    ensures j < |Fields(s, sep)| && s[i] in Fields(s, sep)[j]
    decreases |s|
  {
    var rest := Fields(s[1..], sep);
    if i == 0 {
      j := 0;
    } else {
      var k := FieldOf(s[1..], sep, i - 1);
      if s[0] == sep {
        j := k + 1;
      } else {
        j := k;
      }
    }
  }
}

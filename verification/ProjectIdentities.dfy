/** Project filters (`project_filter_matches` and `resolve_project_identities`, src/legacy_archive.rs). */
module ProjectIdentities {
  import opened Ordering
  import opened Text
  import opened ProjectSlug

  datatype MatchMode = Exact | Fuzzy

  datatype Resolution =
    | Resolved(selected: seq<string>, candidates: seq<string>, unresolved: seq<string>)
    | Ambiguous(filter: string, matches: seq<string>)

  /** `eq_ignore_ascii_case` */
  predicate SameName(a: string, b: string) { LowerAll(a) == LowerAll(b) }

  predicate Contains(s: string, part: string) { exists i :: 0 <= i <= |s| && part <= s[i..] }

  function TrimSlashes(s: string): string {
    if s != [] && s[0] == '/' then TrimSlashes(s[1..])
    else if s != [] && s[|s| - 1] == '/' then TrimSlashes(s[..|s| - 1])
    else s
  }

  predicate ProjectFilterMatches(organization: string, repository: string, raw: string) {
    var filter := Trim(raw);
    if filter == "" then false
    else if filter[0] == '/' then
      var repo := filter[1..];
      repo != "" && '/' !in repo && SameName(repository, repo)
    else if filter[|filter| - 1] == '/' then
      var org := filter[..|filter| - 1];
      org != "" && '/' !in org && SameName(organization, org)
    else if '/' in filter then SameName(organization + "/" + repository, filter)
    else SameName(organization, filter) || SameName(repository, filter)
  }

  /** The owner and repository of an identity; without a slash there is no owner. */
  function OwnerAndRepo(identity: string): (string, string) {
    match SplitOnce(identity, "/")
    case Some(pair) => pair
    case None => ("", identity)
  }

  predicate IdentityMatches(identity: string, filter: string, mode: MatchMode) {
    var (organization, repository) := OwnerAndRepo(identity);
    match mode
    case Exact => ProjectFilterMatches(organization, repository, filter)
    case Fuzzy =>
      var needle := LowerAll(Trim(TrimSlashes(filter)));
      && needle != ""
      && (Contains(LowerAll(identity), needle) || Contains(LowerAll(organization), needle)
          || Contains(LowerAll(repository), needle))
  }

  function Identities(corpus: seq<string>): set<string> {
    set identity | identity in corpus && Trim(identity) != "" :: Trim(identity)
  }

  function Matches(identities: set<string>, raw: string, mode: MatchMode): set<string> {
    if Trim(raw) == "" then {} else set x | x in identities && IdentityMatches(x, Trim(raw), mode)
  }

  /** A bare name with two or more answers. */
  predicate Unclear(identities: set<string>, raw: string, mode: MatchMode) {
    mode == Exact && '/' !in Trim(raw) && |Matches(identities, raw, mode)| > 1
  }

  function Selected(identities: set<string>, filters: seq<string>, mode: MatchMode): set<string> {
    set x, raw | raw in filters && x in Matches(identities, raw, mode) :: x
  }

  /** What a resolution says: refused at the first unclear filter with the sorted list of everything it matches;
      otherwise the sorted list of the identities that some filter matches, and the filters that match none. */
  ghost predicate Resolves(r: Resolution, filters: seq<string>, corpus: seq<string>, mode: MatchMode) {
    var ids := Identities(corpus);
    match r
    case Ambiguous(filter, matches) =>
      exists k :: 0 <= k < |filters| && filters[k] == filter && Unclear(ids, filter, mode)
        && Enumerates(matches, Matches(ids, filter, mode), LexLeq)
        && forall j :: 0 <= j < k ==> !Unclear(ids, filters[j], mode)
    case Resolved(selected, candidates, unresolved) =>
      && (forall k :: 0 <= k < |filters| ==> !Unclear(ids, filters[k], mode))
      && Enumerates(selected, Selected(ids, filters, mode), LexLeq) && candidates == selected
      && unresolved == Filter(filters, (raw: string) => Matches(ids, raw, mode) == {})
  }

  lemma NameOrder()
    ensures TotalPreorder(LexLeq)
  {
    forall a: string, b: string
      ensures LexLeq(a, b) || LexLeq(b, a)
    {
      LexTotal(a, b);
    }
    forall a: string, b: string, c: string | LexLeq(a, b) && LexLeq(b, c)
      ensures LexLeq(a, c)
    {
      LexTransitive(a, b, c);
    }
  }

  /** Iteration over an ordered set. */
  method InOrder(names: set<string>) returns (sorted: seq<string>)
    ensures Enumerates(sorted, names, LexLeq)
  {
    hide LexLeq;
    NameOrder();
    var rest := names;
    sorted := [];
    while rest != {}
      invariant rest <= names && Enumerates(sorted, names - rest, LexLeq)
      decreases rest
    {
      var name :| name in rest;
      InsertEnumerates(name, sorted, names - rest, LexLeq);
      sorted := Insert(name, sorted, LexLeq);
      rest := rest - {name};
      assert names - rest == (names - (rest + {name})) + {name};
    }
  }

  /** A set has one sorted list. */
  lemma OneOrder(a: seq<string>, b: seq<string>, names: set<string>)
    requires Enumerates(a, names, LexLeq) && Enumerates(b, names, LexLeq)
    ensures a == b
  {
    hide LexLeq;
    SameMultiplicity(a, b);
    forall x, y | x in a && y in a && LexLeq(x, y) && LexLeq(y, x)
      ensures x == y
    {
      LexAntisymmetric(x, y);
    }
    SortedUnique(a, b, LexLeq);
  }

  lemma SameMultiplicity(a: seq<string>, b: seq<string>)
    requires Distinct(a) && Distinct(b) && forall x :: x in a <==> x in b
    ensures multiset(a) == multiset(b)
  {
    forall x
      ensures multiset(a)[x] == multiset(b)[x]
    {
      DistinctMultiplicity(a, x);
      DistinctMultiplicity(b, x);
      assert x in multiset(a) <==> x in a;
      assert x in multiset(b) <==> x in b;
    }
  }

  method ResolveProjectIdentities(filters: seq<string>, corpus: seq<string>, mode: MatchMode) returns (r: Resolution)
    ensures Resolves(r, filters, corpus, mode)
  {
    hide IdentityMatches, Trim, Identities, Selected, Matches, Filter, Enumerates;
    var ids := Identities(corpus);
    var selected: set<string>, candidates: set<string>, unresolved: seq<string> := {}, {}, [];
    ghost var none := (raw: string) => Matches(ids, raw, mode) == {};
    assert Selected(ids, filters[..0], mode) == {} by { NoFilters(ids, mode); }
    assert Filter(filters[..0], none) == [] by { FilterNothing(none); }
    for i := 0 to |filters|
      invariant selected == Selected(ids, filters[..i], mode) && candidates == selected
      invariant unresolved == Filter(filters[..i], none)
      invariant forall k :: 0 <= k < i ==> !Unclear(ids, filters[k], mode)
    {
      var raw := filters[i];
      assert filters[..i + 1] == filters[..i] + [raw];
      FilterAppend(filters[..i], [raw], none);
      OneMoreFilter(ids, filters[..i], raw, mode);
      FilterOne(raw, none);
      MatchesMeans(ids, raw, mode);
      var filter := Trim(raw);
      if filter == "" {
        unresolved := unresolved + [raw];
        continue;
      }
      var matches := set x | x in ids && IdentityMatches(x, filter, mode);
      candidates := candidates + matches;
      if matches == {} {
        unresolved := unresolved + [raw];
        continue;
      }
      if mode == Exact && '/' !in filter && |matches| > 1 {
        var listed := InOrder(matches);
        return Ambiguous(raw, listed);
      }
      selected := selected + matches;
    }
    assert filters[..|filters|] == filters;
    var selectedList := InOrder(selected);
    var candidateList := InOrder(candidates);
    OneOrder(selectedList, candidateList, selected);
    return Resolved(selectedList, candidateList, unresolved);
  }

  lemma NoFilters(ids: set<string>, mode: MatchMode)
    ensures Selected(ids, [], mode) == {}
  {
  }

  lemma FilterNothing(keep: string -> bool)
    ensures Filter([], keep) == []
  {
  }

  lemma FilterOne(x: string, keep: string -> bool)
    ensures Filter([x], keep) == if keep(x) then [x] else []
  {
    assert [x][1..] == [];
    FilterNothing(keep);
  }

  lemma MatchesMeans(ids: set<string>, raw: string, mode: MatchMode)
    ensures Trim(raw) == "" ==> Matches(ids, raw, mode) == {}
    ensures Trim(raw) != "" ==> Matches(ids, raw, mode) == set x | x in ids && IdentityMatches(x, Trim(raw), mode)
  {
    hide IdentityMatches, Trim;
  }

  lemma OneMoreFilter(ids: set<string>, filters: seq<string>, raw: string, mode: MatchMode)
    ensures Selected(ids, filters + [raw], mode) == Selected(ids, filters, mode) + Matches(ids, raw, mode)
  {
    hide Matches;
    assert forall f :: f in filters + [raw] <==> f in filters || f == raw;
  }

  /** Order, repetition and padding of the corpus do not matter. */
  lemma CorpusIsASet(r: Resolution, filters: seq<string>, a: seq<string>, b: seq<string>, mode: MatchMode)
    requires Resolves(r, filters, a, mode) && Identities(a) == Identities(b)
    ensures Resolves(r, filters, b, mode)
  {
    hide Identities;
  }

  // ---- How the filter forms relate

  lemma {:induction false} LowerAppend(a: string, b: string)
    ensures LowerAll(a + b) == LowerAll(a) + LowerAll(b)
  {
  }

  lemma LowerKeepsSlash(s: string)
    ensures '/' in s <==> '/' in LowerAll(s)
  {
    if '/' in s {
      var i :| 0 <= i < |s| && s[i] == '/';
      assert LowerAll(s)[i] == '/';
    }
  }

  lemma SlashCutsOnce(a: string, b: string, c: string, d: string)
    requires '/' !in a && '/' !in c && a + "/" + b == c + "/" + d
    ensures a == c && b == d
  {
    var s := a + "/" + b;
    assert s[|a|] == '/' && s[|c|] == '/';
    assert forall i :: 0 <= i < |a| ==> s[i] == a[i] && s[i] != '/';
    assert forall i :: 0 <= i < |c| ==> s[i] == c[i] && s[i] != '/';
    assert a == s[..|a|] && c == s[..|c|] && b == s[|a| + 1..] && d == s[|c| + 1..];
  }

  lemma TrimLeaves(s: string)
    requires s != "" && !IsWhitespace(s[0]) && !IsWhitespace(s[|s| - 1])
    ensures Trim(s) == s
  {
  }

  /** A full slug accepts exactly what its owner wildcard and its repository wildcard both accept. */
  lemma SlugIsBothWildcards(organization: string, repository: string, owner: string, repo: string)
    requires '/' !in organization && '/' !in owner && '/' !in repo && owner != "" && repo != ""
    requires !IsWhitespace(owner[0]) && !IsWhitespace(repo[|repo| - 1])
    ensures ProjectFilterMatches(organization, repository, owner + "/" + repo)
            <==> ProjectFilterMatches(organization, repository, owner + "/")
                 && ProjectFilterMatches(organization, repository, "/" + repo)
  {
    hide Trim, IsWhitespace, LowerAll;
    var slug, wild, any := owner + "/" + repo, owner + "/", "/" + repo;
    assert !IsWhitespace('/') by { SlashIsInk(); }
    assert slug[0] == owner[0] && slug[|slug| - 1] == repo[|repo| - 1] && '/' == slug[|owner|];
    TrimLeaves(slug);
    TrimLeaves(wild);
    TrimLeaves(any);
    assert wild[..|wild| - 1] == owner && any[1..] == repo;
    assert owner[0] in owner && repo[|repo| - 1] in repo;
    SlugNames(organization, repository, owner, repo);
  }

  lemma SlashIsInk()
    ensures !IsWhitespace('/')
  {
  }

  lemma SlugNames(organization: string, repository: string, owner: string, repo: string)
    requires '/' !in organization && '/' !in owner
    ensures SameName(organization + "/" + repository, owner + "/" + repo)
            <==> SameName(organization, owner) && SameName(repository, repo)
  {
    hide LowerAll;
    LowerAppend(organization + "/", repository);
    LowerAppend(organization, "/");
    LowerAppend(owner + "/", repo);
    LowerAppend(owner, "/");
    assert LowerAll("/") == "/" by { LowerSlash(); }
    LowerKeepsSlash(organization);
    LowerKeepsSlash(owner);
    if SameName(organization + "/" + repository, owner + "/" + repo) {
      SlashCutsOnce(LowerAll(organization), LowerAll(repository), LowerAll(owner), LowerAll(repo));
    }
  }

  lemma LowerSlash()
    ensures LowerAll("/") == "/"
  {
  }

  /** A bare name accepts exactly what one of its two wildcards accepts. */
  lemma BareIsEitherWildcard(organization: string, repository: string, name: string)
    requires '/' !in name && name != "" && !IsWhitespace(name[0]) && !IsWhitespace(name[|name| - 1])
    ensures ProjectFilterMatches(organization, repository, name)
            <==> ProjectFilterMatches(organization, repository, name + "/")
                 || ProjectFilterMatches(organization, repository, "/" + name)
  {
    hide Trim, IsWhitespace, LowerAll;
    var wild, any := name + "/", "/" + name;
    assert !IsWhitespace('/') by { SlashIsInk(); }
    TrimLeaves(name);
    TrimLeaves(wild);
    TrimLeaves(any);
    assert wild[..|wild| - 1] == name && any[1..] == name;
    assert name[0] in name && name[|name| - 1] in name;
  }

  /** What the two wildcards accept: `/name` the identities whose part after the first slash is `name`, `name/` those
      whose part before it is, up to the case of letters. An identity without a slash is all repository. */
  lemma WildcardAccepts(identity: string, owner: string, repo: string, name: string)
    requires || (identity == owner + "/" + repo && '/' !in owner)
             || (identity == repo && '/' !in repo && owner == "")
    requires name != "" && '/' !in name && !IsWhitespace(name[0]) && !IsWhitespace(name[|name| - 1])
    ensures IdentityMatches(identity, "/" + name, Exact) <==> SameUpToCase(repo, name)
    ensures IdentityMatches(identity, name + "/", Exact) <==> SameUpToCase(owner, name)
  {
    hide Trim, IsWhitespace, LowerAll, SameUpToCase;
    PartsOfIdentity(identity, owner, repo);
    assert !IsWhitespace('/') by { SlashIsInk(); }
    var wild, any := name + "/", "/" + name;
    TrimLeaves(wild);
    TrimLeaves(any);
    assert wild[..|wild| - 1] == name && any[1..] == name;
    assert name[0] in name;
    LowerMeans(repo, name);
    LowerMeans(owner, name);
  }

  lemma PartsOfIdentity(identity: string, owner: string, repo: string)
    requires || (identity == owner + "/" + repo && '/' !in owner)
             || (identity == repo && '/' !in repo && owner == "")
    ensures OwnerAndRepo(identity) == (owner, repo)
  {
    SplitOnceJoins(identity);
    hide SplitOnce;
    if SplitOnce(identity, "/").Some? && identity == owner + "/" + repo && '/' !in owner {
      var (a, b) := SplitOnce(identity, "/").value;
      SlashCutsOnce(a, b, owner, repo);
    }
    assert identity == owner + "/" + repo ==> identity[|owner|] == '/';
  }

  /** A slug with a slash inside accepts exactly the identities that equal it up to the case of letters. */
  lemma SlugSelectsOne(identity: string, slug: string)
    requires Trim(slug) != "" && '/' in Trim(slug)
    requires Trim(slug)[0] != '/' && Trim(slug)[|Trim(slug)| - 1] != '/'
    ensures IdentityMatches(identity, slug, Exact) <==> SameUpToCase(identity, Trim(slug))
  {
    hide Trim, LowerAll, SameUpToCase;
    SlugMatchIsName(identity, Trim(slug));
    LowerMeans(identity, Trim(slug));
  }

  lemma SlugMatchIsName(identity: string, slug: string)
    requires slug != "" && slug[0] != '/' && '/' in slug
    ensures var (o, r) := OwnerAndRepo(identity); SameName(o + "/" + r, slug) <==> SameName(identity, slug)
  {
    assert LowerAll(slug)[0] != '/';
    LowerKeepsSlash(slug);
    LowerKeepsSlash(identity);
    SplitOnceJoins(identity);
  }

  /** A blank filter accepts nothing, and so does one with a slash at an end and another further in. */
  lemma MalformedAcceptsNone(organization: string, repository: string, raw: string)
    ensures Blank(raw) ==> !ProjectFilterMatches(organization, repository, raw)
    ensures raw != "" && !IsWhitespace(raw[0]) && !IsWhitespace(raw[|raw| - 1])
            && (|| (raw[0] == '/' && '/' in raw[1..])
                || (raw[0] != '/' && raw[|raw| - 1] == '/' && '/' in raw[..|raw| - 1])) ==>
              !ProjectFilterMatches(organization, repository, raw)
  {
    if Blank(raw) { BlankTrims(raw); }
    hide LowerAll;
    if raw != "" && !IsWhitespace(raw[0]) && !IsWhitespace(raw[|raw| - 1]) { TrimLeaves(raw); }
    hide Trim, IsWhitespace;
  }

  lemma {:induction false} BlankTrims(s: string)
    requires Blank(s)
    ensures Trim(s) == ""
  {
    if s != "" { BlankTrims(s[1..]); }
  }

  lemma {:induction false} SplitOnceJoins(s: string)
    ensures match SplitOnce(s, "/")
            case Some((a, b)) => a + "/" + b == s && '/' !in a
            case None => '/' !in s
  {
    if s != [] && !("/" <= s) {
      SplitOnceJoins(s[1..]);
      assert s == [s[0]] + s[1..];
      assert s[0] == '/' ==> "/" <= s;
    }
  }
}

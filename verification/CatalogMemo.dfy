/** The memo of `origin` lookups (`RemoteMemo` and `git_metadata_stamp`, src/catalog.rs).

    A memo entry is trusted while the stamp of the checkout is unchanged. The main result says
    when that is safe: over every run of any number of processes sharing one memo file, all
    answers agree with a direct git query if and only if equal git metadata imply equal origins. */
module CatalogMemo {
  import opened Ordering
  import opened Text

  const U64_MAX: nat := 0xFFFF_FFFF_FFFF_FFFF
  const REMOTE_MEMO_SCHEMA := "aicx.catalog.remotes.v1"

  /** A `.git` entry: a directory with the time of its `config`, or the link file of a worktree or submodule.
      Times are nanoseconds since the epoch and may be negative. */
  datatype Git = Dir(mtime: int, config: Option<int>) | Link(mtime: int)

  /** What the lookups read: the directories that hold a `.git`, by path components, and the answer git gives for
      a working directory. */
  datatype World = World(git: map<seq<string>, Git>, origin: map<string, string>)

  datatype Stamp = Stamp(gitPath: seq<string>, gitMtime: nat, configMtime: Option<nat>)

  datatype MemoEntry = MemoEntry(stamp: Stamp, project: Option<string>)

  datatype Memo = Memo(entries: map<string, MemoEntry>, dirty: bool)

  /** The memo file: absent, unreadable, or parsed. */
  datatype MemoFile = NoFile | Unreadable | Parsed(schema: string, entries: map<string, MemoEntry>)

  /** The project, whether git was asked, and the memo afterwards. */
  datatype Lookup = Lookup(project: Option<string>, asked: bool, memo: Memo)

  function MtimeUnixNs(time: int): Option<nat> {
    if time < 0 then None else Some(if time < U64_MAX then time else U64_MAX)
  }

  predicate Absolute(cwd: string) { cwd != [] && cwd[0] == '/' }

  /** The path components of a Unix path: empty and `.` components are dropped. */
  function Components(cwd: string): seq<string> {
    Filter(Fields(cwd, '/'), NamedPart)
  }

  predicate NamedPart(part: string) { part != "" && part != "." }

  /** What that comes to: a slash separates, a part without one is a component unless it is empty or `.`. */
  lemma ComponentsMean(a: string, b: string)
    ensures Components(a + ['/'] + b) == Components(a) + Components(b)
    ensures '/' !in a ==> Components(a) == if a == "" || a == "." then [] else [a]
  {
    FieldsAppend(a, '/', b);
    FilterAppend(Fields(a, '/'), Fields(b, '/'), NamedPart);
    if '/' !in a { FieldsOfOne(a, '/'); }
  }

  function StampOf(dir: seq<string>, git: Git): Stamp {
    match git
    case Dir(mtime, config) =>
      Stamp(dir, Time(mtime), match config case Some(t) => MtimeUnixNs(t) case None => None)
    case Link(mtime) => Stamp(dir, Time(mtime), None)
  }

  function Time(mtime: int): nat { match MtimeUnixNs(mtime) case Some(t) => t case None => 0 }

  /** The stamp of the nearest directory upwards that holds a `.git`. */
  function StampAt(w: World, dir: seq<string>): Option<Stamp> {
    if dir in w.git then Some(StampOf(dir, w.git[dir]))
    else if dir == [] then None
    else StampAt(w, dir[..|dir| - 1])
  }

  function CwdStamp(w: World, cwd: string): Option<Stamp> { StampAt(w, Components(cwd)) }

  method GitMetadataStamp(w: World, cwd: string) returns (r: Option<Stamp>)
    ensures r == CwdStamp(w, cwd)
    ensures r.Some? ==>
              exists n: nat :: Nearest(w, Components(cwd), n) && r.value.gitPath == Components(cwd)[..n]
                               && Times(r.value, w.git[Components(cwd)[..n]])
    ensures r.None? ==> forall n: nat :: n <= |Components(cwd)| ==> Components(cwd)[..n] !in w.git
  {
    WalkFindsNearest(w, Components(cwd));
    hide Times, Components;
    var current := Some(Components(cwd));
    while current.Some?
      invariant current.Some? ==> StampAt(w, current.value) == CwdStamp(w, cwd)
      invariant current.None? ==> CwdStamp(w, cwd) == None
      decreases if current.Some? then |current.value| + 1 else 0
    {
      var dir := current.value;
      if dir in w.git { return Some(StampOf(dir, w.git[dir])); }
      current := if dir == [] then None else Some(dir[..|dir| - 1]);
    }
    return None;
  }

  /** The first `n` components are the longest prefix that holds a `.git`. */
  ghost predicate Nearest(w: World, dir: seq<string>, n: nat) {
    n <= |dir| && dir[..n] in w.git && forall m :: n < m <= |dir| ==> dir[..m] !in w.git
  }

  /** A time in nanoseconds as 64 bits without sign hold it. */
  function Capped(t: int): nat { if t < 0 then 0 else if t > U64_MAX then U64_MAX else t }

  /** A directory with a `config` whose time is not before the epoch; a link file has none. */
  ghost predicate ReadableConfig(git: Git) { git.Dir? && git.config.Some? && git.config.value >= 0 }

  /** A stamp carries these times. */
  ghost predicate Times(stamp: Stamp, git: Git) {
    && stamp.gitMtime == Capped(git.mtime)
    && (stamp.configMtime.Some? <==> ReadableConfig(git))
    && (ReadableConfig(git) ==> stamp.configMtime.value == Capped(git.config.value))
  }

  /** The walk stamps the nearest `.git` with its own time and that of its `config`, and fails only when no prefix
      holds one. */
  lemma {:induction false} WalkFindsNearest(w: World, dir: seq<string>)
    ensures match StampAt(w, dir)
            case Some(stamp) =>
              exists n: nat :: Nearest(w, dir, n) && stamp.gitPath == dir[..n] && Times(stamp, w.git[dir[..n]])
            case None => forall n: nat :: n <= |dir| ==> dir[..n] !in w.git
    decreases |dir|
  {
    hide Times;
    if dir in w.git { StampCarriesTimes(dir, w.git[dir]); }
    hide StampOf;
    assert dir[..|dir|] == dir;
    if dir in w.git {
      assert Nearest(w, dir, |dir|);
    } else if dir != [] {
      var up := dir[..|dir| - 1];
      WalkFindsNearest(w, up);
      assert forall n: nat :: n <= |up| ==> up[..n] == dir[..n];
      if StampAt(w, up).Some? {
        var stamp := StampAt(w, up).value;
        var n: nat :| Nearest(w, up, n) && stamp.gitPath == up[..n] && Times(stamp, w.git[up[..n]]);
        assert Nearest(w, dir, n);
      }
    }
  }

  lemma StampCarriesTimes(dir: seq<string>, git: Git)
    ensures StampOf(dir, git).gitPath == dir && Times(StampOf(dir, git), git)
  {
  }

  /** The same `.git` is nearest in both worlds, with the same time, and its `config` is readable in both with the
      same time or in neither; times as 64 bits hold them. */
  ghost predicate SameMetadata(v: World, w: World, dir: seq<string>) {
    exists n: nat :: Nearest(v, dir, n) && Nearest(w, dir, n) && SameTimes(v.git[dir[..n]], w.git[dir[..n]])
  }

  ghost predicate SameTimes(a: Git, b: Git) {
    && Capped(a.mtime) == Capped(b.mtime)
    && (ReadableConfig(a) <==> ReadableConfig(b))
    && (ReadableConfig(a) ==> Capped(a.config.value) == Capped(b.config.value))
  }

  /** Which worlds give a directory the same stamp. */
  lemma StampsEqualIff(v: World, w: World, dir: seq<string>)
    ensures StampAt(v, dir).Some? && StampAt(v, dir) == StampAt(w, dir) <==> SameMetadata(v, w, dir)
  {
    hide StampAt, ReadableConfig, Capped;
    WalkFindsNearest(v, dir);
    WalkFindsNearest(w, dir);
    if StampAt(v, dir).Some? && StampAt(w, dir).Some? {
      var a, b := StampAt(v, dir).value, StampAt(w, dir).value;
      var n: nat :| Nearest(v, dir, n) && a.gitPath == dir[..n] && Times(a, v.git[dir[..n]]);
      var m: nat :| Nearest(w, dir, m) && b.gitPath == dir[..m] && Times(b, w.git[dir[..m]]);
      assert |dir[..n]| == n && |dir[..m]| == m;
      OneNearest(v, dir, n);
      OneNearest(w, dir, m);
    }
  }

  lemma OneNearest(w: World, dir: seq<string>, n: nat)
    requires Nearest(w, dir, n)
    ensures forall m: nat :: Nearest(w, dir, m) ==> m == n
  {
    forall m: nat | Nearest(w, dir, m)
      ensures m == n
    {
      assert !(n < m <= |dir|) && !(m < n <= |dir|);
    }
  }

  /** The direct git query. */
  function Origin(w: World, cwd: string): Option<string> {
    if cwd in w.origin then Some(w.origin[cwd]) else None
  }

  /** What a lookup without a memo answers. */
  function Fresh(w: World, cwd: string): Option<string> {
    if !Absolute(cwd) || CwdStamp(w, cwd).None? then None else Origin(w, cwd)
  }

  /** Git names a project for an absolute path below a directory that holds a `.git`, when it knows an origin. */
  lemma FreshMeans(w: World, cwd: string, project: string)
    ensures Fresh(w, cwd) == Some(project)
            <==> && |cwd| > 0 && cwd[0] == '/'
                 && (exists n: nat :: n <= |Components(cwd)| && Components(cwd)[..n] in w.git)
                 && cwd in w.origin && w.origin[cwd] == project
  {
    hide StampAt, Components, Times;
    WalkFindsNearest(w, Components(cwd));
  }

  function Resolve(memo: Memo, w: World, cwd: string): Lookup {
    if !Absolute(cwd) then Lookup(None, false, memo)
    else
      match CwdStamp(w, cwd)
      case None => Lookup(None, false, memo)
      case Some(stamp) =>
        if cwd in memo.entries && memo.entries[cwd].stamp == stamp then
          Lookup(memo.entries[cwd].project, false, memo)
        else
          var project := Origin(w, cwd);
          Lookup(project, true, Memo(memo.entries[cwd := MemoEntry(stamp, project)], true))
  }

  function LoadMemo(file: MemoFile): Memo {
    Memo(if file.Parsed? && file.schema == REMOTE_MEMO_SCHEMA then file.entries else map[], false)
  }

  /** Persisting clears `dirty` whether or not the write succeeds. */
  function PersistMemo(memo: Memo, file: MemoFile, writable: bool): (Memo, MemoFile) {
    (memo.(dirty := false),
     if memo.dirty && writable then Parsed(REMOTE_MEMO_SCHEMA, memo.entries) else file)
  }

  class RemoteMemo {
    var entries: map<string, MemoEntry>
    var dirty: bool

    ghost function Value(): Memo
      reads this
    {
      Memo(entries, dirty)
    }

    constructor Load(file: MemoFile)
      ensures Value() == LoadMemo(file)
    {
      if file.Parsed? && file.schema == REMOTE_MEMO_SCHEMA {
        entries := file.entries;
      } else {
        entries := map[];
      }
      dirty := false;
    }

    method ProjectFor(w: World, cwd: string) returns (project: Option<string>, ghost asked: bool)
      modifies this
      ensures Lookup(project, asked, Value()) == Resolve(old(Value()), w, cwd)
    {
      asked := false;
      if !Absolute(cwd) { return None, false; }
      var stamp := GitMetadataStamp(w, cwd);
      if stamp.None? { return None, false; }
      if cwd in entries && entries[cwd].stamp == stamp.value {
        return entries[cwd].project, false;
      }
      project := Origin(w, cwd);
      entries := entries[cwd := MemoEntry(stamp.value, project)];
      dirty := true;
      asked := true;
    }

    method Persist(file: MemoFile, writable: bool) returns (after: MemoFile)
      modifies this
      ensures (Value(), after) == PersistMemo(old(Value()), file, writable)
    {
      after := file;
      if !dirty { return; }
      dirty := false;
      if writable { after := Parsed(REMOTE_MEMO_SCHEMA, entries); }
    }
  }

  // ---- Agreement with one world

  /** An entry that would be trusted in `w` carries what git answers in `w`. */
  ghost predicate EntriesAgree(entries: map<string, MemoEntry>, w: World) {
    forall cwd :: cwd in entries && CwdStamp(w, cwd) == Some(entries[cwd].stamp) ==> entries[cwd].project == Origin(w, cwd)
  }

  lemma ResolveAgrees(memo: Memo, w: World, cwd: string)
    requires EntriesAgree(memo.entries, w)
    ensures Resolve(memo, w, cwd).project == Fresh(w, cwd)
    ensures EntriesAgree(Resolve(memo, w, cwd).memo.entries, w)
  {
    hide CwdStamp, Origin, Absolute;
  }

  predicate Trusted(entries: map<string, MemoEntry>, w: World, cwd: string) {
    cwd in entries && CwdStamp(w, cwd) == Some(entries[cwd].stamp)
  }

  function Belief(entries: map<string, MemoEntry>, w: World, cwd: string): Option<string> {
    if Trusted(entries, w, cwd) then entries[cwd].project else Origin(w, cwd)
  }

  /** The world as a memo sees it: trusted entries stand for what git answers, git answers the rest. */
  function Believed(entries: map<string, MemoEntry>, w: World): World {
    World(w.git, map cwd | cwd in w.origin.Keys + entries.Keys && Belief(entries, w, cwd).Some?
                   :: Belief(entries, w, cwd).value)
  }

  lemma BelievedAnswers(entries: map<string, MemoEntry>, w: World, cwd: string)
    ensures Origin(Believed(entries, w), cwd) == Belief(entries, w, cwd)
    ensures CwdStamp(Believed(entries, w), cwd) == CwdStamp(w, cwd)
  {
    hide Components;
    SameGitSameStamp(Believed(entries, w), w, Components(cwd));
  }

  /** Any memo answers as git would in the world the memo believes in, and a lookup does not change that belief. */
  lemma ResolveBelieves(memo: Memo, w: World, cwd: string)
    ensures Resolve(memo, w, cwd).project == Fresh(Believed(memo.entries, w), cwd)
    ensures Believed(Resolve(memo, w, cwd).memo.entries, w) == Believed(memo.entries, w)
  {
    hide CwdStamp, Absolute, Believed;
    BelievedAnswers(memo.entries, w, cwd);
    SameBeliefs(memo.entries, Resolve(memo, w, cwd).memo.entries, w);
  }

  lemma SameBeliefs(a: map<string, MemoEntry>, b: map<string, MemoEntry>, w: World)
    requires forall cwd :: Belief(a, w, cwd) == Belief(b, w, cwd)
    ensures Believed(a, w) == Believed(b, w)
  {
    hide Trusted;
    var v, u := Believed(a, w), Believed(b, w);
    forall cwd
      ensures cwd in v.origin <==> cwd in u.origin
      ensures cwd in v.origin ==> v.origin[cwd] == u.origin[cwd]
    {
      BelievedAnswers(a, w, cwd);
      BelievedAnswers(b, w, cwd);
    }
    assert v.origin == u.origin;
  }

  /** A memo agrees with a world exactly when it believes in that world. */
  lemma AgreesIffBelieves(entries: map<string, MemoEntry>, w: World)
    ensures EntriesAgree(entries, w) <==> Believed(entries, w) == w
  {
    hide CwdStamp;
    forall cwd { BelievedAnswers(entries, w, cwd); }
    if EntriesAgree(entries, w) {
      var v := Believed(entries, w);
      assert forall cwd :: Belief(entries, w, cwd) == Origin(w, cwd);
      assert forall cwd :: Origin(v, cwd) == Origin(w, cwd);
      assert forall cwd :: cwd in v.origin <==> cwd in w.origin;
      assert v.origin == w.origin;
    }
  }

  /** A second lookup asks git nothing, changes nothing and answers the same, "no origin" included; so does a lookup
      in a process that loads what the first one persisted. */
  lemma SecondLookupIsFree(memo: Memo, w: World, cwd: string, file: MemoFile)
    ensures var first := Resolve(memo, w, cwd);
            && Resolve(first.memo, w, cwd) == Lookup(first.project, false, first.memo)
            && (first.asked ==>
                  var reloaded := LoadMemo(PersistMemo(first.memo, file, true).1);
                  Resolve(reloaded, w, cwd) == Lookup(first.project, false, reloaded))
  {
    hide CwdStamp, Origin, Absolute;
  }

  /** After a lookup in `v`, a lookup in `w` asks git if and only if the metadata changed; it then answers what git
      does in `w`, and otherwise what the first one answered. */
  lemma AsksAgainIff(memo: Memo, v: World, w: World, cwd: string)
    requires |cwd| > 0 && cwd[0] == '/'
    requires exists n: nat :: Nearest(v, Components(cwd), n)
    ensures var first := Resolve(memo, v, cwd);
            var second := Resolve(first.memo, w, cwd);
            if SameMetadata(v, w, Components(cwd)) then
              !second.asked && second.project == first.project
            else if exists m: nat :: Nearest(w, Components(cwd), m) then
              second.asked && second.project == if cwd in w.origin then Some(w.origin[cwd]) else None
            else
              !second.asked && second.project == None
  {
    hide StampAt, Components, Times, SameMetadata;
    StampsEqualIff(v, w, Components(cwd));
    WalkFindsNearest(v, Components(cwd));
    WalkFindsNearest(w, Components(cwd));
  }

  /** Rewriting the `config` of the nearest `.git` directory is seen: if only that time differs, as 64 bits hold it,
      the next lookup asks git. */
  lemma ConfigEditIsSeen(memo: Memo, v: World, w: World, cwd: string, n: nat, mtime: int, was: int, now: int)
    requires |cwd| > 0 && cwd[0] == '/' && Nearest(v, Components(cwd), n)
    requires v.git[Components(cwd)[..n]] == Dir(mtime, Some(was)) && Capped(was) != Capped(now) && was >= 0 && now >= 0
    requires w.git == v.git[Components(cwd)[..n] := Dir(mtime, Some(now))]
    ensures var second := Resolve(Resolve(memo, v, cwd).memo, w, cwd);
            second.asked && second.project == if cwd in w.origin then Some(w.origin[cwd]) else None
  {
    hide Resolve, Components;
    var dir := Components(cwd);
    assert Nearest(w, dir, n);
    OneNearest(v, dir, n);
    AsksAgainIff(memo, v, w, cwd);
  }

  // ---- Every run

  /** What can happen: a process loads the memo file, looks a directory up, or persists; the file is lost or damaged,
      or replaced by one of another schema; the world changes. */
  datatype Action =
    | Load(p: nat)
    | Query(p: nat, cwd: string)
    | Persist(p: nat, writable: bool)
    | Damage(left: MemoFile)
    | Edit(to: World)

  datatype Answer = Answer(w: World, cwd: string, project: Option<string>)

  datatype State = State(w: World, memos: map<nat, Memo>, file: MemoFile, answers: seq<Answer>)

  function Next(s: State, a: Action): State {
    match a
    case Load(p) => s.(memos := s.memos[p := LoadMemo(s.file)])
    case Query(p, cwd) =>
      if p !in s.memos then s
      else
        var found := Resolve(s.memos[p], s.w, cwd);
        s.(memos := s.memos[p := found.memo], answers := s.answers + [Answer(s.w, cwd, found.project)])
    case Persist(p, writable) =>
      if p !in s.memos then s
      else
        var (memo, file) := PersistMemo(s.memos[p], s.file, writable);
        s.(memos := s.memos[p := memo], file := file)
    case Damage(left) => if left.Parsed? && left.schema == "aicx.catalog.remotes.v1" then s else s.(file := left)
    case Edit(to) => s.(w := to)
  }

  function Run(s: State, actions: seq<Action>): State
    decreases |actions|
  {
    if actions == [] then s else Run(Next(s, actions[0]), actions[1..])
  }

  function Start(w: World): State { State(w, map[], NoFile, []) }

  /** Every world the run passes through is one of `worlds`. */
  ghost predicate StaysIn(worlds: World -> bool, w: World, actions: seq<Action>) {
    worlds(w) && forall i :: 0 <= i < |actions| && actions[i].Edit? ==> worlds(actions[i].to)
  }

  ghost predicate AnswersFresh(answers: seq<Answer>) {
    forall i :: 0 <= i < |answers| ==> answers[i].project == Fresh(answers[i].w, answers[i].cwd)
  }

  predicate SameOrigin(v: World, w: World, cwd: string) {
    (cwd in v.origin <==> cwd in w.origin) && (cwd in v.origin ==> v.origin[cwd] == w.origin[cwd])
  }

  /** Equal metadata above an absolute path imply equal origins. */
  ghost predicate MetadataDecides(worlds: World -> bool) {
    forall v: World, w: World, cwd: string ::
      (worlds(v) && worlds(w) && |cwd| > 0 && cwd[0] == '/' && SameMetadata(v, w, Components(cwd)) ==>
         SameOrigin(v, w, cwd))
  }

  /** As the memo sees it: equal stamps for a directory. */
  predicate SameStamp(v: World, w: World, cwd: string) {
    Absolute(cwd) && CwdStamp(v, cwd).Some? && CwdStamp(v, cwd) == CwdStamp(w, cwd)
  }

  lemma SameStampIff(v: World, w: World, cwd: string)
    ensures SameStamp(v, w, cwd) <==> |cwd| > 0 && cwd[0] == '/' && SameMetadata(v, w, Components(cwd))
    ensures SameOrigin(v, w, cwd) <==> Origin(v, cwd) == Origin(w, cwd)
  {
    hide StampAt, SameMetadata, Components;
    StampsEqualIff(v, w, Components(cwd));
  }

  predicate RecordedIn(v: World, cwd: string, entry: MemoEntry) {
    Absolute(cwd) && CwdStamp(v, cwd) == Some(entry.stamp) && Origin(v, cwd) == entry.project
  }

  /** Every entry was recorded in one of `worlds`. */
  ghost predicate Recorded(worlds: World -> bool, entries: map<string, MemoEntry>) {
    forall cwd :: cwd in entries ==>
      (exists v :: worlds(v) && RecordedIn(v, cwd, entries[cwd]))
  }

  ghost predicate Inv(worlds: World -> bool, s: State) {
    && worlds(s.w)
    && (forall p :: p in s.memos ==> Recorded(worlds, s.memos[p].entries))
    && (s.file.Parsed? && s.file.schema == REMOTE_MEMO_SCHEMA ==> Recorded(worlds, s.file.entries))
    && AnswersFresh(s.answers)
  }

  lemma RecordedAgrees(worlds: World -> bool, entries: map<string, MemoEntry>, w: World)
    requires MetadataDecides(worlds) && worlds(w) && Recorded(worlds, entries)
    ensures EntriesAgree(entries, w)
  {
    hide CwdStamp, Origin, Absolute, SameMetadata, SameOrigin, Components;
    forall v, cwd { SameStampIff(v, w, cwd); }
  }

  lemma QueryRecords(worlds: World -> bool, memo: Memo, w: World, cwd: string)
    requires worlds(w) && Recorded(worlds, memo.entries)
    ensures Recorded(worlds, Resolve(memo, w, cwd).memo.entries)
  {
    hide CwdStamp, Origin, Absolute;
  }

  lemma NextKeepsInv(worlds: World -> bool, s: State, a: Action)
    requires MetadataDecides(worlds) && Inv(worlds, s) && (a.Edit? ==> worlds(a.to))
    ensures Inv(worlds, Next(s, a))
  {
    hide Recorded, EntriesAgree, Fresh, Resolve, MetadataDecides;
    assert Recorded(worlds, map[]) by { NothingRecorded(worlds); }
    if a.Query? && a.p in s.memos {
      RecordedAgrees(worlds, s.memos[a.p].entries, s.w);
      ResolveAgrees(s.memos[a.p], s.w, a.cwd);
      QueryRecords(worlds, s.memos[a.p], s.w, a.cwd);
    }
  }

  lemma NothingRecorded(worlds: World -> bool)
    ensures Recorded(worlds, map[])
  {
  }

  lemma {:induction false} RunKeepsInv(worlds: World -> bool, s: State, actions: seq<Action>)
    requires MetadataDecides(worlds) && Inv(worlds, s)
    requires forall i :: 0 <= i < |actions| && actions[i].Edit? ==> worlds(actions[i].to)
    ensures Inv(worlds, Run(s, actions))
    decreases |actions|
  {
    hide Inv, MetadataDecides, Next;
    if actions != [] {
      NextKeepsInv(worlds, s, actions[0]);
      RunKeepsInv(worlds, Next(s, actions[0]), actions[1..]);
    }
  }

  /** A memo filled in `v` answers for `w` what git answered in `v` when the stamps agree. */
  lemma StaleAnswer(v: World, w: World, cwd: string, actions: seq<Action>)
    requires SameStamp(v, w, cwd)
    requires actions == [Load(0), Query(0, cwd), Edit(w), Query(0, cwd)]
    ensures Run(Start(v), actions).answers == [Answer(v, cwd, Origin(v, cwd)), Answer(w, cwd, Origin(v, cwd))]
  {
    hide CwdStamp, Origin, Absolute;
    var s1 := Next(Start(v), Load(0));
    var s2 := Next(s1, Query(0, cwd));
    var s3 := Next(s2, Edit(w));
    var s4 := Next(s3, Query(0, cwd));
    assert actions[1..] == [Query(0, cwd), Edit(w), Query(0, cwd)];
    assert actions[1..][1..] == [Edit(w), Query(0, cwd)];
    assert actions[1..][1..][1..] == [Query(0, cwd)];
    assert Run(s4, actions[1..][1..][1..][1..]) == s4;
    assert Run(s3, actions[1..][1..][1..]) == s4;
    assert Run(s2, actions[1..][1..]) == s4;
    assert Run(s1, actions[1..]) == s4;
  }

  ghost predicate AllRunsFresh(worlds: World -> bool) {
    forall w: World, actions: seq<Action> :: StaysIn(worlds, w, actions) ==> AnswersFresh(Run(Start(w), actions).answers)
  }

  /** The memo agrees with direct git queries in every run over a set of worlds exactly when, in that set, equal
      metadata imply equal origins. */
  lemma MemoIsFreshIff(worlds: World -> bool)
    ensures AllRunsFresh(worlds) <==> MetadataDecides(worlds)
  {
    hide CwdStamp, Origin, Absolute, Run, SameMetadata, SameOrigin, Components;
    if MetadataDecides(worlds) {
      forall w: World, actions: seq<Action> | StaysIn(worlds, w, actions)
        ensures AnswersFresh(Run(Start(w), actions).answers)
      {
        NothingRecorded(worlds);
        RunKeepsInv(worlds, Start(w), actions);
      }
    }
    if AllRunsFresh(worlds) {
      forall v: World, w: World, cwd: string
        | worlds(v) && worlds(w) && |cwd| > 0 && cwd[0] == '/' && SameMetadata(v, w, Components(cwd))
        ensures SameOrigin(v, w, cwd)
      {
        SameStampIff(v, w, cwd);
        var actions := [Load(0), Query(0, cwd), Edit(w), Query(0, cwd)];
        StaleAnswer(v, w, cwd, actions);
        assert StaysIn(worlds, v, actions);
        assert AnswersFresh(Run(Start(v), actions).answers);
        assert Run(Start(v), actions).answers[1] == Answer(w, cwd, Origin(v, cwd));
      }
    }
  }

  /** An origin that moves without touching a stamped time, as in a linked worktree whose `config` lies elsewhere or a
      working directory that was deleted, leaves the memo giving the old answer. */
  lemma UnstampedMoveStaysStale(v: World, w: World, cwd: string, actions: seq<Action>)
    requires Absolute(cwd) && CwdStamp(v, cwd).Some?
    requires w.git == v.git && Origin(w, cwd) != Origin(v, cwd)
    requires actions == [Load(0), Query(0, cwd), Edit(w), Query(0, cwd)]
    ensures !AnswersFresh(Run(Start(v), actions).answers)
  {
    hide Run, Absolute;
    SameGitSameStamp(v, w, Components(cwd));
    StaleAnswer(v, w, cwd, actions);
    assert Run(Start(v), actions).answers[1] == Answer(w, cwd, Origin(v, cwd));
  }

  lemma {:induction false} SameGitSameStamp(v: World, w: World, dir: seq<string>)
    requires v.git == w.git
    ensures StampAt(v, dir) == StampAt(w, dir)
    decreases |dir|
  {
    if dir !in v.git && dir != [] { SameGitSameStamp(v, w, dir[..|dir| - 1]); }
  }
}

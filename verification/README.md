# AICX: verified models of its stateful decisions

This project models, in Dafny, the parts of AICX that decide something over state: the session
catalog and its hot refresh, the memo of git origins, the character budget of an injected
continuity pack, the resolution of intents, log retention, chunk file names and project filters,
the dashboard rebuild protocol, and the shared budgets of the open-work scan and the Antigravity
reader. `dafny verify dfyconfig.toml` checks everything.

Each component is one module in a file of the same name. Code that updates state is modelled by
methods and classes with the same loops, branches and fields, proved against a specification
function; the theorems are lemmas about that function. The host (files, git, clocks, the network)
enters as a parameter: a directory listing, the answers of git, a hash, a date parser.

| module | models |
|---|---|
| `Ordering`, `Text` | stable sorting, permutations, strings; used by the others |
| `CatalogRefresh`, `CatalogFixpoint`, `CatalogContest`, `CatalogInterleaving`, `HotRefresh` | the hot refresh as a function, when repetition stops finding work, several sources claiming one key, concurrent calls, and the loops themselves |
| `CatalogMemo` | the memo of origins and the stamp that keeps it fresh |
| `CatalogStatus`, `ProjectSlug` | the readiness verdict; canonical slugs |
| `InjectLines`, `InjectBudget` | splitting a pack into lines; dropping lines under the budget |
| `Supersedes`, `TruncatedDuplicates`, `IntentMerge`, `Admission` | the four intent passes |
| `LogRetention` | retention of diagnostics logs |
| `ChunkNames`, `ProjectIdentities` | file names; project filters |
| `RebuildProtocol` | concurrent dashboard rebuilds |
| `OpenWork`, `Worktrees` | the shared scan budget; `git worktree list` |
| `ReadBudget` | payload and row limits of one database read |

Ten results say where the code does less than a reader might assume, each with the exact condition:

- One hot refresh is not always enough, even when every key belongs to one source and every scanned
  file has its path to itself: a row left under an old key can hide a source until another source
  takes that key. The exact condition is `CatalogFixpoint.OneRefreshSuffices`; the cure is more
  refreshes, and `CatalogFixpoint.RefreshConverges` bounds how many.
- When several sources claim one key, refreshing need not come to rest. When no scanned file
  shares its path, and the catalog's rows for scanned files sit under those files' own keys, it comes
  to rest if and only if there is no key whose last
  hot claimant in scan order is a file the scan can pass over while another hot source claims the key
  too (`CatalogContest.RestsIffUncontested`). So two enriched sources with one key come to rest, and
  so does a rival outside the window. With a row left under another key, a contested world can be at
  rest as well (`CatalogContest.LeftoverHidesRival`).
- Concurrent refreshes lose no key, but the commit that comes last decides the row. The file follows
  the newest reading of a session exactly when no call that held the session scanned and committed
  between the scan and the commit of another that held it (`CatalogInterleaving.NewestStaysIff`,
  `CatalogInterleaving.NewestReadingIff`).
- The memo is safe exactly when equal git metadata imply equal origins: the same nearest `.git`, the
  same time of it and of its `config`, a link file having none (`CatalogMemo.MemoIsFreshIff`). A
  linked worktree's metadata do not cover the file that holds its origin
  (`CatalogMemo.UnstampedMoveStaysStale`).
- Among candidates with the latest timestamp the merge need not keep a most confident one: its tie
  test compares with the highest confidence seen so far, which an older candidate may have raised.
  It does exactly when some most confident latest candidate takes over at its turn
  (`IntentMerge.BestLatestIff`).
- A finished on-demand scan can be done again without anyone asking for a rebuild, exactly when a
  request still stands where a publish can come from (`RebuildProtocol.PublishesAgainIff`); with
  browse requests only, at most once more for each request that had read "not scanned" when the
  first scan was published (`RebuildProtocol.BrowsePublishesBounded`), and that many can happen
  (`RebuildProtocol.BoundIsReached`).
- The open-work scan keeps every commit cap exactly when `git cherry` lists, for each branch that is
  ahead, no more commits than it is ahead (`OpenWork.CommitCapIff`).
- Supersession does not depend on the order of the entries exactly when no two members of a topic
  tie on date and confidence, for distinct ids and topics in which all dates parse or none does
  (`Supersedes.OrderIrrelevantIff`), although the comment on the sort promises it without condition.
- A topic that mixes dates that parse with dates that do not may have no order to sort by. It has one
  exactly when standing before is transitive among its members (`Supersedes.SortsIffTransitive`).
- The rebuild flag does not always keep two builds from running at once: it fails to exactly when a
  request takes the flag while the build of a cancelled one is still running
  (`RebuildProtocol.BuildsOverlapIff`).

Documentation and code differ in another place: the comment on `status` says a row is
missing when its own path is gone, while the code reads the path of the live source with the same
key, so a row is missing exactly when its key is not live. The model follows the code.

## Model

| member | source | states |
|---|---|---|
| CatalogRefresh.ChangedExactly | src/catalog.rs:627-653 | With one source per key, a source is among the changed rows if and only if the scan reads it (hot or enriched, and its fingerprint not already cataloged) and the catalog's row for its key is absent or differs after reattribution on both sides |
| CatalogRefresh.ChangedMeans | src/catalog.rs:627-653 | The same in terms of sources and rows alone: changed are exactly the sources that are due and whose row is absent or has another place, size, 64-bit time, bundle, directory or project than the source calls for, the project being what git names for the directory in canonical form, else the guess |
| CatalogRefresh.DueIsSelected | src/catalog.rs:627-653 | A source is due when it is enriched, or not older than the cutoff and not fingerprinted alike by the last measured row of its path, ordered by agent and then session; the scan reads exactly these |
| CatalogRefresh.RefreshSettles | src/catalog.rs:765-850 | A refresh settles every source it reads and unsettles none |
| CatalogRefresh.RefreshedRowMatchesSource | src/catalog.rs:815-819 | After a refresh the row of every due source has the source's path, size, 64-bit time, bundle and working directory (an enriched one its own size and time, and no bundle), and as project what git names for that directory in canonical form, else the guess |
| CatalogRefresh.RefreshedRowsAttributed | src/catalog.rs:765-850 | Every row, read or not: the keys are those before and those of due sources; a row with a directory git names a project for carries it in canonical form; a row no due source claims keeps all else, and its project when git names none |
| CatalogRefresh.MergeIsAttributed | src/catalog.rs:1774-1792 | After a merge every row is its changed or former one, with the project git names for its directory if git names one; the keys are those of both; and reattribution would change no row |
| CatalogRefresh.QuietMeans | src/catalog.rs:794-807 | A refresh writes nothing if and only if every row with a directory git names a project for carries that project and every source a scan reads is settled |
| CatalogRefresh.QuietIsAdmitted | src/catalog.rs:727-731 | When a refresh has nothing to change, nothing is unadmitted |
| CatalogFixpoint.OneRefreshSuffices | src/catalog.rs:619-850 | With one source per key, and no scanned file sharing its path (enriched sources may: the sessions of one bus ledger do), the refresh after this one finds nothing if and only if every source skipped now is still recognised, or already right, once the changed rows are taken out |
| CatalogFixpoint.OwnRowsSettleAtOnce | src/catalog.rs:717-756 | Under the same hypotheses, if no row with the path of a scanned file sits under a key other than that file's own, one refresh reaches the fixed point: no changed row, no unadmitted row, no reattribution, no write; and the property is kept |
| CatalogFixpoint.RefreshConverges | src/catalog.rs:765-850 | From any catalog, with one source per key, refreshing changes nothing any more after one refresh more than there are sources |
| CatalogFixpoint.UnsettledShrinks | src/catalog.rs:732-756 | Every refresh with a changed row settles a source for good |
| CatalogContest.RestsIffUncontested | src/catalog.rs:627-653 | With no scanned file sharing its path, and a catalog whose rows for scanned files sit under those files' own keys: some number of refreshes comes to rest, and one does, if and only if no key's last hot claimant in scan order is a file that can be skipped while another hot source claims the key |
| CatalogContest.ContestedNeverQuiet | src/catalog.rs:645-653 | Under the same hypotheses such a key leaves work at every refresh: its last claimant is read and not settled, or skipped and replaced |
| CatalogContest.RivalsFlipForever | src/catalog.rs:645-653 | How it looks: when two hot files alone claim a key, and the catalog holds one of them and no other row with either path, the row changes sides at every refresh |
| CatalogContest.LeftoverHidesRival | src/catalog.rs:632-653 | With the second file's fingerprint left under another key, that same world is at rest |
| CatalogFixpoint.LeftoverRowNeedsTwo | src/catalog.rs:632-653 | A row left under another hot source's key by an earlier way of deriving keys makes two refreshes necessary, so unique keys and paths alone do not make one enough |
| CatalogInterleaving.RunKeepsKeys | src/catalog.rs:790-833 | In every interleaving of any number of refreshes from any catalog, in worlds that change at will, between any two moments: no key is lost, every key a committed refresh found changed is in the catalog from then on, and no row holds anything but its project that the first catalog or some scan did not offer under its key |
| CatalogInterleaving.CommitFrame | src/catalog.rs:815-833 | A commit writes its changed rows and keeps all others, each with the project git then names for its directory if it names one, and adds and removes nothing else; no other step writes |
| CatalogInterleaving.AloneIsRefresh | src/catalog.rs:765-850 | Undisturbed, the scan, preview and commit of a call do what one refresh does |
| CatalogInterleaving.LastCommitDecides | src/catalog.rs:815-828 | In every run the file holds, for each key, the reading of the last commit that held it, or the first catalog's |
| CatalogInterleaving.NewestReadingIff | src/catalog.rs:790-828 | In every run the file holds the newest committed reading of a session if and only if the call that committed it last is the one that scanned it last, or read the same row; and it is that call if and only if no call that held the session spans it |
| CatalogInterleaving.NewestStaysIff | src/catalog.rs:790-828 | In every run the catalog follows the newest reading after every commit if and only if no call that held the session scanned and committed between the scan and the commit of another that held it |
| CatalogInterleaving.OlderScanCanWin | src/catalog.rs:815-828 | A run in which it does not: both calls find a session changed, the earlier scan commits last, and the older reading is back |
| HotRefresh.CatalogHome.RefreshHot | src/catalog.rs:765-850 | Without a catalog nothing is written; otherwise, for any memo file, the file becomes the catalog refreshed in the world as the memo sees it, every row with a directory that world names a project for carries it, the report counts changed, admitted and reattributed rows, both counts are zero if and only if nothing was written, and the memo file goes on seeing the same world |
| HotRefresh.LiveDelta | src/catalog.rs:619-756 | The scan loop, the path index and the reattribution through any memo compute the changed and unadmitted rows of the world as the memo sees it |
| HotRefresh.CatalogHome.LiveDeltaUncached | src/catalog.rs:619-756 | So does the call with its own memo, loaded and persisted; persisting may fail |
| HotRefresh.KnownFingerprints | src/catalog.rs:627-653 | The index built in key order answers for a source exactly as the last row in key order that has its path and a fingerprint |
| HotRefresh.ReattributeCatalogEntries | src/catalog.rs:1774-1792 | The loop through any memo gives every row with a non-empty directory the canonical form of the project the memo stands for, leaves a row without one as it is, counts the rows it changed, and leaves what the memo stands for as it was |
| HotRefresh.ReattributeRow | src/catalog.rs:1779-1789 | One row of it: only the project may change, and exactly as said |
| HotRefresh.AgreeingMemoSeesWorld | src/catalog.rs:1848-1875 | A memo sees the world as it is if and only if its trusted entries agree with git |
| CatalogMemo.ResolveBelieves | src/catalog.rs:1848-1875 | Any memo answers as git would in one world, which lookups do not change |
| CatalogMemo.MemoIsFreshIff | src/catalog.rs:1832-1895 | Over every run of any number of processes that load, look up, persist or fail to, lose the file or find one of another schema, and see the world change within a set of worlds: all answers equal a direct git query if and only if in that set equal metadata above an absolute path (nearest `.git`, its time, the readable time of its `config`) imply equal origins |
| CatalogMemo.ResolveAgrees | src/catalog.rs:1848-1875 | A lookup in a memo that agrees with the world answers as git would, and nothing for a relative path or one with no `.git` above it; the memo goes on agreeing |
| CatalogMemo.SecondLookupIsFree | src/catalog.rs:1855-1875 | A second lookup asks git nothing and answers the same, also in a process that loads what the first one persisted, also for "no origin" |
| CatalogMemo.WalkFindsNearest | src/catalog.rs:1902-1924 | The stamp is that of the longest prefix holding a `.git`: its place, its time in 64 bits (zero before the epoch), and the time of its `config` if it is a directory with a readable one; there is none exactly when no prefix holds one |
| CatalogMemo.StampsEqualIff | src/catalog.rs:1902-1924 | Two worlds give a directory the same stamp if and only if the nearest `.git` lies at the same prefix, with the same 64-bit time, and its `config` is readable in both with the same time or in neither; a link file has none |
| CatalogMemo.AsksAgainIff | src/catalog.rs:1848-1875 | After a lookup in one world, a lookup in another asks git if and only if the metadata differ; it then answers what git does there, and otherwise what the first one answered |
| CatalogMemo.ConfigEditIsSeen | src/catalog.rs:1855-1861 | If only the time of the nearest `.git/config` differs, the next lookup asks git and answers the new origin |
| CatalogMemo.FreshMeans | src/catalog.rs:1848-1854 | A direct query names a project for an absolute path with a `.git` at or above it when git knows an origin, and for nothing else |
| CatalogMemo.UnstampedMoveStaysStale | src/catalog.rs:1907-1914 | If an origin moves and no stamped time does, the memo gives the old answer |
| CatalogMemo.RemoteMemo.ProjectFor | src/catalog.rs:1848-1875 | The method answers, asks git, and updates entries and dirty mark as a lookup does; `AsksAgainIff` says when it asks |
| CatalogMemo.RemoteMemo.Persist | src/catalog.rs:1879-1894 | A clean memo writes nothing; a dirty one is marked clean even if the write fails |
| CatalogMemo.GitMetadataStamp | src/catalog.rs:1902-1924 | The upward loop finds the nearest `.git` and stamps its place and times; it answers nothing only when no prefix holds one |
| CatalogStatus.Status | src/catalog.rs:381-489 | The two loops count every row and every new source once, globally and by agent, and sample the first twelve that are not current |
| CatalogStatus.CountsAddUp | src/catalog.rs:134-141 | Every row falls into exactly one of four kinds; the fifth counter is the number of live keys the catalog lacks |
| CatalogStatus.AgentsSumToTotal | src/catalog.rs:404-476 | The per-agent counters of every kind sum to the global one |
| CatalogStatus.JudgeMeans | src/catalog.rs:409-463 | Current: its key is live and readable with the recorded size, time and bundle; stale: live and readable but not so; unknown: live and unreadable; missing: not live |
| CatalogStatus.VerdictIsExact | src/catalog.rs:975-999 | Each verdict if and only if its meaning over the two sets of sessions: Fresh when the catalog has a row, both sides have the same keys and every fingerprint agrees; SourcesMissing when it has rows and nothing is live; and so on for the other three |
| ProjectSlug.CanonicalizeIsProjection | src/catalog.rs:1979-1986 | A slug is left alone if and only if it is canonical (clean lower-case segments, forward slashes); the result always is; applying it twice changes nothing more |
| ProjectSlug.SameSlugIff | src/catalog.rs:1979-1986 | Two names yield one slug if and only if their trimmed non-blank segments, cut at either slash, agree up to the case of ASCII letters |
| InjectLines.SplitKeepsText | src/continuity.rs:730-769 | The split loses and moves no character; each line ends at a line feed or at the end of the pack and nowhere else |
| InjectLines.SplitMeans | src/continuity.rs:730-769 | Every line, said of its text and the lines before it: a heading line names its section, others stay in it; claim and protected lines are those of the listed sections; a line belongs to the NOW floor if and only if it is a non-blank body line of NOW with fewer than the floor before it, so there are as many as that allows; the first of them is protected, like the pack title and the head of HONESTY |
| InjectLines.SplitInjectLines | src/continuity.rs:730-769 | The loop computes the split |
| InjectBudget.NextDropIsFirst | src/continuity.rs:826-876 | The seven questions, one of which counts afresh each time, always find the first kept line of one fixed order: tier, then from the tail, protected first lines and headings last |
| InjectBudget.FrontiersNest | src/continuity.rs:878-904 | The keep vectors in which everything dropped precedes everything kept form a chain |
| InjectBudget.ReserveInjectTail | src/continuity.rs:878-904 | The loop ends on every text and returns the largest selection in that order that fits together with its own marker, every larger one being over budget; or the bare marker cut to the budget when none fits |
| InjectBudget.ReservedTailIsUnique | src/continuity.rs:878-904 | That determines the text |
| InjectBudget.BoundedInject | src/continuity.rs:675-680 | Never over budget; unchanged if within it; otherwise the reserved text |
| InjectBudget.OverBudgetLosesALine | src/continuity.rs:675-680 | A pack over budget loses at least one line |
| InjectBudget.PackOrder | src/continuity.rs:821-855 | By section and flags, who may have gone while a line is kept: the order is claim lines outside the floor, OPEN WORK rows, other unprotected lines, ADDRESSED TO rows, floor lines, then protected lines and headings, each of the first five from the tail; no heading goes while a later body line is kept |
| InjectBudget.FloorOutlivesRows | src/continuity.rs:663-674 | Once one of the first `floor` NOW rows has gone, no OPEN WORK row, no ADDRESSED TO row and no claim line outside those rows is left; once the first of them has, only headings and the protected lines of the pack title, HONESTY, SOURCES and INDEX HEALTH are |
| InjectBudget.SurvivorsArePrefix | src/continuity.rs:808-855 | In the first five tiers the survivors are a prefix of the tier |
| InjectBudget.FirstProtectedLineOutlives | src/continuity.rs:857-876 | The first non-blank protected line of a section goes, like a heading, only after every other line, and from the tail |
| InjectBudget.NamesExact | src/continuity.rs:771-797 | The marker names a section exactly when it lost a non-blank line, and once |
| InjectBudget.NamesInOrder | src/continuity.rs:771-797 | Sections are named in the order of their first losses |
| InjectBudget.ShortenedInjectSections | src/continuity.rs:771-797 | Names, and for OPEN WORK and ADDRESSED TO the exact number of dropped non-blank rows, in the singular or plural |
| InjectBudget.LabelSays | src/continuity.rs:771-797 | The label of a section is its name, and for OPEN WORK and ADDRESSED TO with dropped non-blank rows the exact number of them, in the singular or plural |
| InjectBudget.MarkerHolds | src/continuity.rs:700-713 | Every label stands in the marker |
| InjectBudget.KeptTextAt | src/continuity.rs:882-891 | A kept line stands in the text between what is kept before and after it; a dropped one does not |
| InjectBudget.DroppingCanLengthen | src/continuity.rs:878-895 | In every pack of one section and one row with the section's name more than five characters longer, the first drop lengthens the text, so the loop shrinks the number of kept lines, not of characters |
| Supersedes.DetectSupersedes | src/intents.rs:4963-5034 | In place, each entry of a topic with two or more members is resolved by its neighbours in the order the sort settles on, whatever the dates and whatever the order in which topics are taken; all others are left alone; and where every topic can be sorted (standing before is transitive in it), the neighbours are the immediate ones by date, confidence and position |
| Supersedes.OneActiveInAnyOrder | src/intents.rs:5012-5032 | Whatever that order, each such topic ends with one Active entry, its last; every other member is superseded by the one after it, which ends with a link to it at confidence 0.7 added last unless it had one already; the first keeps its links |
| Supersedes.LatestEntryWins | src/intents.rs:4956-5032 | Where every topic can be sorted: no member is dated later than the Active entry, none of its date is more confident, and none of both comes earlier in the input; every other member is superseded by one no earlier by the same tests, with none between. Dates are instants where both parse and texts otherwise |
| Supersedes.TopicMeans | src/intents.rs:4975-4989 | Which entries share a topic: intents, decisions or insights of one type and project whose titles have the same words, as long as no project name holds a colon |
| Supersedes.OneActivePerTopic | src/intents.rs:4963-5034 | Where every topic can be sorted, a topic of two or more has one Active entry, the latest, then most confident, then first seen; every other member is Superseded by its immediate successor |
| Supersedes.FollowReachesWinner | src/intents.rs:5012-5032 | Where every topic can be sorted, with distinct ids, following `superseded_by` from any member reaches that entry |
| Supersedes.FollowReachesLastInAnyOrder | src/intents.rs:5012-5032 | Whatever order the sort settles on, with distinct ids, it reaches the Active entry, the last in that order |
| Supersedes.SecondRunChangesNothing | src/intents.rs:4963-5034 | Where every topic can be sorted, a second pass changes no state, no `superseded_by` and no link |
| Supersedes.OrderIrrelevantIff | src/intents.rs:4963-5010 | With distinct ids, and in each topic all dates parsing or none, every rearrangement of the input gives every entry the same outcome if and only if no two members of a topic tie on date and confidence |
| Supersedes.TiedSwapChanges | src/intents.rs:4992-5010 | Under the same hypotheses, exchanging two tied members changes what becomes of the later one |
| Supersedes.InputOrderIrrelevant | src/intents.rs:4992-5010 | Where every topic can be sorted and without ties, each entry's outcome is the same in any order of the input, distinct ids or not |
| Supersedes.CoreKept | src/intents.rs:4963-5034 | Where every topic can be sorted, nothing but states, links and `superseded_by` changes, and topics and chain order stay |
| Supersedes.CoreKeptInAnyOrder | src/intents.rs:4963-5034 | Nothing else changes in any case |
| Supersedes.SortsIffTransitive | src/intents.rs:4992-5010 | A topic can be listed with each member before all later ones if and only if standing before is transitive among its members |
| Supersedes.AlikeDatesCompare | src/intents.rs:4956-4961 | It is when all dates of the topic parse, or none does |
| Supersedes.MixedDatesCycle | src/intents.rs:4956-4961 | It need not be otherwise: with one of three dates unparsable the comparison can be a cycle |
| TruncatedDuplicates.DropTruncatedDuplicates | src/intents.rs:4065-4129 | The pass with its group index keeps exactly what an all-pairs scan keeps, in order |
| TruncatedDuplicates.GroupDecides | src/intents.rs:4072-4086 | Looking only at a record's own group decides whether a fuller record exists anywhere |
| TruncatedDuplicates.DroppedIff | src/intents.rs:4088-4121 | A record goes if and only if its summary holds the marker, something but whitespace stands before the first one, and a record of the same kind, session and chunk without a marker, longer in bytes, starts with that text less its trailing whitespace |
| TruncatedDuplicates.UntruncatedSurvive | src/intents.rs:4055-4064 | No untruncated record goes, and every record that goes leaves a fuller one |
| TruncatedDuplicates.PassIsIdempotent | src/intents.rs:4065-4129 | A second pass removes nothing |
| IntentMerge.DedupCandidates | src/intents.rs:4131-4197 | The records are exactly one per fact (kind, project, normalised summary) with a candidate that passes the kind filter and the confidence asked for (4 when strict, else 1, unless given): the fold of the passing candidates of that fact in order; newest first |
| IntentMerge.NewestFirstMeans | src/intents.rs:4170-4191 | What that order is: by time, then decision, intent, outcome, task, then source chunk, last first |
| IntentMerge.FinalizeTasks | src/intents.rs:4199-4269 | One record per task key with a confident enough event whose folded state is open, newest first; nothing for another kind |
| IntentMerge.TaskEventsMean | src/intents.rs:4209-4237 | The events folded for a key are exactly its confident enough ones, oldest first and then by source chunk |
| IntentMerge.MergeInto | src/intents.rs:4271-4345 | The sequence of updates computes the merge step |
| IntentMerge.MergeEvidence | src/intents.rs:4361-4373 | The loop with its running seen-set computes the merged list |
| IntentMerge.LongestSummaryWins | src/intents.rs:4353-4359 | The merged summary is the longest, the earliest of those |
| IntentMerge.LongestContextWins | src/intents.rs:4347-4351 | So is the merged context |
| IntentMerge.LatestBundleWins | src/intents.rs:4284-4303 | The provenance bundle comes whole from one candidate with the latest time, and the confidence is the highest of the group |
| IntentMerge.LastTakeoverSuppliesBundle | src/intents.rs:4284-4290 | Exactly which: the last candidate later than all before it, or tied with the latest and at least as confident as all before it |
| IntentMerge.BestLatestIff | src/intents.rs:4284-4290 | The bundle comes from a most confident of the latest candidates if and only if some such candidate takes over at its turn |
| IntentMerge.TieIgnoresConfidence | src/intents.rs:4326-4332 | A group in which it does not |
| IntentMerge.EvidenceIsUnion | src/intents.rs:4361-4373 | Up to normal form the merged evidence is exactly the union of all, starts with the first list, and adds nothing twice |
| IntentMerge.TaskStateIsLatest | src/intents.rs:4306-4345 | Open or closed is read off one event of the key, and no passing event of the key is later |
| Admission.Extract | src/intents.rs:498-607 | Each accumulator ends as the first MAX_CANDIDATES items of all files in admission order, and its counter as the number of the rest |
| Admission.ExtendWithCap | src/intents.rs:1024-1044 | Appends what fits and counts the rest |
| Admission.OnlyHeavierFilesFillTheCap | src/intents.rs:1014-1022 | A candidate is dropped only when the cap is full, and only files with at least as many human messages as its own filled it |
| Admission.AdmissionOrder | src/intents.rs:1014-1022 | Files are admitted by human messages, then time, then sequence, all descending, then path, last first; each once |
| Admission.YieldedInOrder | src/intents.rs:498-607 | The items are those of the files in that order, of each its signal items and then its transcript items |
| LogRetention.EnforceRetention | src/diagnostics.rs:373-466 | The three phases remove exactly the shortest prefix of closed logs, oldest first, that satisfies age, count and bytes together, or all of them if none does |
| LogRetention.PhasesCut | src/diagnostics.rs:426-462 | Three boundaries found one after the other are one shortest cut |
| LogRetention.OnlyClosedLogsGo | src/diagnostics.rs:384-424 | A reported name is that of a run log, not the active one, whose name parses, whose process was not seen alive, and which is past the age limit unless the process was seen dead; its removal did not fail |
| LogRetention.QueueMeans | src/diagnostics.rs:384-425 | The queue holds exactly the logs that may go, oldest first and then by name; all other entries named like run logs are what the caps count as protected, in number and bytes |
| LogRetention.Conservation | src/diagnostics.rs:426-466 | Kept plus deleted is the number of entries named like run logs if and only if no removal failed |
| LogRetention.ReadOrderIrrelevant | src/diagnostics.rs:384-425 | The order in which the directory is read changes nothing |
| ChunkNames.BasenameRoundTrip | src/legacy_archive.rs:50-85 | Parsing a printed name gives back the truncated id and the chunk, for every date, agent, 32-bit chunk and id with a non-empty cleaned form |
| ChunkNames.NameSpelled | src/legacy_archive.rs:50-85 | How a name is spelled for a YYYY-MM-DD date and a short clean id: date without hyphens split after the year, agent, id and a chunk of three digits or more, joined by underscores |
| ChunkNames.DateRoundTrip | src/legacy_archive.rs:57-66 | For every string, expanding the compacted date gives it back if and only if it is a YYYY-MM-DD date, or has fewer than eight digits and no hyphen |
| ChunkNames.ChunkRoundTrip | src/legacy_archive.rs:1732-1748 | The chunk number survives padding |
| ChunkNames.TruncatedShape | src/legacy_archive.rs:75-97 | A truncated id has only id characters, no underscore, at most 28 of them, and is empty exactly when nothing of the id survives cleaning |
| ChunkNames.CollisionSuffixIgnored | src/legacy_archive.rs:1706-1748 | A collision suffix names the same session and chunk |
| ProjectIdentities.ResolveProjectIdentities | src/legacy_archive.rs:1210-1259 | Refused at the first bare name with two or more answers, with the full sorted list of them; otherwise the sorted list of exactly the identities some filter matches and, in order, the filters that match none |
| ProjectIdentities.OneOrder | src/legacy_archive.rs:1215-1222 | A set of identities has one sorted list, so the answer is determined |
| ProjectIdentities.CorpusIsASet | src/legacy_archive.rs:1215-1222 | Order, repetition and padding of the corpus do not matter |
| ProjectIdentities.SlugIsBothWildcards | src/legacy_archive.rs:1072-1102 | `owner/repo` accepts exactly what `owner/` and `/repo` both accept |
| ProjectIdentities.BareIsEitherWildcard | src/legacy_archive.rs:1072-1102 | `name` accepts exactly what `name/` or `/name` accepts |
| ProjectIdentities.SlugSelectsOne | src/legacy_archive.rs:1094-1098 | A slug with a slash inside accepts exactly the identities equal to it up to the case of letters |
| ProjectIdentities.WildcardAccepts | src/legacy_archive.rs:1072-1102 | `/name` accepts the identities whose part after the first slash is `name`, `name/` those whose part before it is, up to case; an identity without a slash is all repository |
| ProjectIdentities.MalformedAcceptsNone | src/legacy_archive.rs:1072-1102 | A blank filter accepts nothing, nor does one with a slash at one end and another further in |
| RebuildProtocol.RunInvariant | src/dashboard_server.rs:482-617 | In every run with failures and cancellations: the flag is set exactly when one guard is alive, what the snapshot shows comes from one published payload, the build count is the initial one plus the publishes until saturation, and a "rebuilt" answer carries a published count |
| RebuildProtocol.SnapshotShowsLastBuild | src/dashboard_server.rs:482-519 | In every run the snapshot shows payload, time, stats and assumptions of the last published build, or those it started with; its error is the message of the last write if that failed, else none; its count is the initial one plus the published builds until it saturates; and every result written is one a build of the run ended with |
| RebuildProtocol.ReadyForever | src/dashboard_server.rs:482-519 | A ready snapshot never becomes unscanned, and the count never falls |
| RebuildProtocol.OnlyOwnerActs | src/dashboard_server.rs:192-206 | Only the owner of the guard clears the flag or writes the snapshot |
| RebuildProtocol.RejectedNeverClears | src/dashboard_server.rs:531-550 | A request that loses the swap leaves the flag to the winner and can do nothing more |
| RebuildProtocol.CountsDistinct | src/dashboard_server.rs:482-519 | Two rebuilds of one run answer the same count only at saturation |
| RebuildProtocol.PublishesAgainIff | src/dashboard_server.rs:521-617 | From every reachable published state, some continuation that admits no regenerate request publishes again if and only if a request has read "not scanned", is building, holds a built result, or is an admitted regenerate request |
| RebuildProtocol.BrowsePublishesBounded | src/dashboard_server.rs:521-551 | In every run of browse requests only, after the first publish there are at most as many more as there were requests that had read "not scanned" at that moment |
| RebuildProtocol.BoundIsReached | src/dashboard_server.rs:521-551 | Once the flag is free again, every such request can still publish |
| RebuildProtocol.OnDemandScanTwice | src/dashboard_server.rs:521-551 | A run of two browse requests that both rebuild |
| RebuildProtocol.BuildsOverlapIff | src/dashboard_server.rs:482-499 | In every run two builds run at once at some moment if and only if at some step a request takes the flag while a build is still running; and every build still running then was abandoned by a cancelled request |
| RebuildProtocol.OverlapIsAbandoned | src/dashboard_server.rs:482-499 | Of two builds running at once, at least one was abandoned by a cancelled request |
| RebuildProtocol.Server.Step | src/dashboard_server.rs:482-617 | A server that swaps and clears the flag and writes the snapshot only by calls of the shared state class takes each step as the step system says |
| RebuildProtocol.DashboardServerState.RebuildSnapshot | src/dashboard_server.rs:482-519 | Under the lock a build replaces payload, time, stats, assumptions and status together; a failure only records its message |
| OpenWork.ScanAccounts | src/open_work.rs:281-346 | Each examined branch ends as exactly one of not ahead, over budget, git error, integrated or a row, within the branch cap; and within the commit cap when git lists honestly, the condition of `CommitCapIff` |
| OpenWork.JudgeMeans | src/open_work.rs:287-346 | How one branch ends, by what git answers: not ahead, over budget when ahead by more than the room left, integrated when `git cherry` lists no `+`, an error naming the failed call, or a row with the counts of `+` and `-` lines and the facts of the last `+`; it is charged what was listed |
| OpenWork.ScanMeans | src/open_work.rs:224-354 | A scan examines the first branches other than HEAD's own up to the cap, each with the commits those before it left over; rows and over-budget list are exactly theirs, rows newest first and then by name |
| OpenWork.ScanCheckout | src/open_work.rs:224-354 | The loop over branches reports what judging them under one commit budget gives |
| OpenWork.CommitCapIff | src/open_work.rs:296-325 | A list of branches keeps within every commit budget if and only if `git cherry` lists, for each branch that is ahead, no more commits than it is ahead |
| OpenWork.CommitCapNeedsListing | src/open_work.rs:296-325 | A listing that breaks the cap |
| OpenWork.CollectAccounts | src/open_work.rs:184-200 | Examined plus unexamined plus foreign checkouts are all of them; branches examined plus branches left are the cap; and so for commits when git lists honestly in each checkout |
| OpenWork.CollectIsFlat | src/open_work.rs:184-200 | The nested loops judge exactly what one loop over the first BRANCH_CAP branches of all visited checkouts would under one commit budget |
| OpenWork.Collect | src/open_work.rs:184-200 | The loop computes the report |
| OpenWork.VisitsFirstOwn | src/open_work.rs:184-200 | The visited checkouts are the first CHECKOUT_CAP that do not name another project |
| OpenWork.FreshestExamined | src/open_work.rs:167-200 | A checkout left unexamined is undated, or dated no later as text than an examined one, which then has a date; equal dates go by path |
| Worktrees.ParseWorktrees | src/open_work.rs:450-472 | The loop over three variables computes the fold over fields |
| Worktrees.WorktreesRoundTrip | src/open_work.rs:450-472 | Parsing what git lists gives back the worktree that holds each branch, with its prunable mark |
| Worktrees.LastTerminatorOptional | src/open_work.rs:453-455 | Also when the last record has no terminator |
| ReadBudget.TotalsCheckIsExact | src/agy_store.rs:176-208 | The aggregate check accepts if and only if charging the same rows one by one, in any order, never fails; the counters then end at start plus sums |
| ReadBudget.ReadBudget.Consume | src/agy_store.rs:24-44 | A refused charge changes nothing, an accepted one keeps both limits, and no subtraction underflows |
| ReadBudget.LoadSteps | src/agy_store.rs:155-174 | The only refusal is the aggregate one; past it every row is loaded |
| ReadBudget.ChargeOrderIrrelevant | src/agy_store.rs:24-44 | The verdict and final counters do not depend on row order |

## Left out

- Files, SQLite, git, subprocesses, HTTP and clocks: their answers are parameters. An I/O error that aborts a call is not modelled; one that a call survives is (a failed removal, an unreadable directory, a failed memo write, a git error per branch).
- `rebuild` and its progress reports: it replaces the whole catalog file without reading it, so key preservation is claimed for hot refreshes only.
- The thirty-second cache in front of the live delta, and the report fields that only measure (scanned sessions, newest mtime, wall time).
- Codescribe bus, dictation and runtime-run enrichment and the ten agent scanners: they are one list of sources in scan order. A bus row's project and cwd, which the source copies from its receiver's row, are inputs here, and enriched sources outside the window are absent from the list.
- The columns of a catalog row that no comparison reads (title, date, machine, kind) are one opaque column.
- HotRefresh.CatalogHome.RefreshHot: one world throughout the call; worlds that change in mid-call, and concurrent calls, are `CatalogInterleaving`. When the memo file sees the world as it is is `CatalogMemo.MemoIsFreshIff`.
- CatalogStatus.Status: leaves out the machine buckets, recommendations and notes.
- CatalogMemo: paths are Unix paths; Windows prefixes are not modelled. A memo file of the current schema edited by hand is not; a lost or damaged one, or one of another schema, is.
- ProjectIdentities: fuzzy matching is modelled; nothing is proved about it beyond the resolution.
- Supersedes.DetectSupersedes: on a topic that cannot be sorted, the source's sort may settle on any order, which `ResolvedAlong` and the lemmas named `InAnyOrder` cover, or panic, which is not modelled. Topic words and date parsing are parameters.
- Supersedes: the contradiction and derivation passes beside it.
- IntentMerge: the normal forms of summaries and evidence are parameters; a map's iteration order is arbitrary, so records with equal sort keys may come in any order.
- Admission.Extract: per-file read errors and the later filters of the extraction are not modelled.
- ChunkNames: SipHash is a parameter; the sidecar files and the store walk are absent.
- OpenWork.Collect: starts from the resolved checkouts and their newest dates; folding recorded workdirs into them (src/open_work.rs:145-166) is not modelled.
- OpenWork: the patch-identity comparison behind `git cherry` and the trailers of commits are git's answers; rendering is absent.
- RebuildProtocol: the payload of a build is a value; what the scan puts in it is not modelled, nor are authentication, routing and HTML.
- The phrase classifiers and scores of intents, evidence heuristics, `src/auth.rs`, the search index and everything that only renders text.
- Characters are code points; text that is not valid Unicode does not occur.

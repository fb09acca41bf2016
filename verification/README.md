# Verified model of the dependency-graph ingestion and its resolvers

The repository builds a dependency graph from source trees and production traces: it keeps clones of
repositories up to date, extracts facts from their files, resolves calls, imports, routes, table accesses
and test coverage between the facts, rolls up trace spans, merges what several adapters found, and loads
the result into a property graph. This project models the parts of it that carry state, walk graphs or
rewrite text, and proves what they promise. Code that changes things step by step is modelled by methods
and classes proved against specification functions; the theorems are about those functions.

`dafny verify dfyconfig.toml` checks everything.

| files | what they model |
|---|---|
| `GithubWorld`, `GithubExtraction`, `GithubService`, `RepoUrl` | incremental ingestion of GitHub repositories as a protocol over a metadata row, a directory and a moving remote head, with kills between any two steps that change durable state |
| `MigrationPrograms`, `SqlMigrations`, `GraphMigrations` | schema migrations that can be killed between any two statements |
| `AliasExpansion`, `ModulePath`, `NameResolution` | re-exports, module names and file paths, relative imports |
| `SyntaxWalk` | which call nodes the Python grammar visits |
| `Artifacts`, `EnclosingLookup`, `CallEdges`, `CoverageLinks`, `OracleCalls`, `OracleEdges`, `DbAccess` | which artifact a line belongs to, and the edges drawn from calls, imports and SQL statements |
| `CallTargets`, `CallRules`, `Attempts`, `CallPlaces`, `RelativeImports` | what a call refers to, step by step, as rules over the import facts and artifacts, and as a list of places to look in; what becomes of relative imports |
| `RouterPrefix` | URL prefixes of routers mounted on routers |
| `TraceBuckets`, `Sorting`, `PriorityMerge` | rolling up spans; running adapters by priority and merging them |
| `GraphLoad`, `GraphLoader`, `LoadedGraph`, `LoadCounts` | the load into the property graph, and what it writes and counts, told from the records |
| `FactTree`, `BlankSpans`, `Text` | indexes of facts, blanking without moving lines, string operations |

## What the proofs found

Each of these is stated by a lemma, for all inputs where a condition is given, otherwise by an instance.

- **Ingestion is safe against kills, delivery is not.** A skip always has an earlier completed walk of the very
  commit just fetched, over every run (`SkipHasEarlierWalk`). But that walk need not have seen that commit. The
  fast path trusts a tree that sits elsewhere after a kill between the git work and the row update, followed by a
  remote that rewinds (`KilledFetchMisleadsTheWalk`); after a removal killed while it deletes files
  (`TornCloneMisleadsTheWalk`); and when two urls share owner and name (`SharedPathMisleadsTheWalk`).
  `WalkIsHonestExactlyWhen` says when one iteration is affected. With these three kept out every walk is honest
  (`SkipHasHonestWalk`), and one failure-free extraction repairs every row that a registered url leads to
  (`RecoveryAfterAnyRun`).
- **Records can be lost.** When a later repository raises, because its walk fails or because its url is turned
  away when it is canonicalised again, what was built for earlier ones is already recorded as ingested but never
  returned, and the next run skips it: if and only if something raises and a repository with something to walk
  stands before everything that does (`RecordsAreLostExactlyWhen`, `LostRecordsAreSkipped`,
  `LostRecordsExample`, `InvalidUrlLosesRecordsExample`).
- A repository that is skipped is shown as `cloned` afterwards, no longer as `ingested`
  (`SecondExtractionSkipsAll`).
- Canonicalising a canonical url can change it (`NormalizeIsStableExactlyWhen`, `DoubledSuffixExample`); a
  repository registered under such a url is not fetched under it, or makes every extraction that comes to it end
  in an error (`RegisteredUrlIsFetchedExactlyWhen`, `InvalidOnTheSecondCallExample`).
- The self-healing of the SQLite runner restores tables of the first migration only
  (`ReturnsExactlyWhen`, `LaterTableIsNotHealedExample`); a database that fails to open fails again
  (`RaisedRunRaisesAgain`).
- The Cypher runner's documentation calls a second run a no-op; the database indeed stays as it is, but
  version 1 is applied, and reported, every time (`SecondRunReappliesOnlyTheFirst`).
- The depth bound of the re-export walk is not "everything within five hops": depth-first order can miss a
  key two hops away (`TwoHopsCanBeMissed`). `NothingIsMissedExactlyWhen` says when nothing is missed.
- The comment beside the stub made for an unknown procedure promises that re-runs do not duplicate it. Its id is
  indeed the same each time, but it is indexed under its full name, is not found by that, and is appended again by
  every run over the output (`StubsAreTheUnresolved`, `SecondRunMakesTheStubsAgain`, `SecondRunRepeatsTheStubs`);
  the second lookup for Pro*C facts never finds anything (`SecondLookupNeverHelps`). Tables are handed out again
  in the same way (`SecondRunRepeatsTheTables`).
- An unqualified PL/SQL call is resolved to the last procedure of that name listed, not only to a unique one as
  the comment beside the lookup says (`LookupFindsProcedures`, `UnqualifiedIsNotUniqueExample`).
- The leading dots of an import count in the map of re-exports only. Every call, in aggregator files as in others,
  is resolved as if the imports of its file were absolute (`DotsAreDropped`). That is what they mean, whatever the
  artifacts are, if and only if both readings lead to the same places (`ResolvedAsMeantExactlyWhen`); a relative
  import of a sibling module can be missed, or taken for a module at the root (`SiblingImportIsMissedExample`).
- A bare import can give a test two edges to one artifact (`EdgesRepeatExactlyWhen`, `TwoBareImportsExample`).
- Edge counts of the loader count rows: those that dangle and those that repeat an edge are counted too, and the
  count is right only without either (`EdgeCountIsExactWhen`, `DanglingRowExample`, `RepeatedRowExample`).
- A router included twice has one parent, the last (`BuildParents`, `SecondMountReplacesExample`); all its mounts
  count only if they agree (`EveryMountCountsExactlyWhen`).
- The second tier of the enclosing lookup also accepts a multi-line artifact that ended before the line;
  its documentation speaks of declarations without an end line only (`EndedFunctionExample`).
  `FallbackIsAsDocumentedExactlyWhen` says when that makes a difference.
- A relative import that climbs out of its top-level package falls back to the bare target, where section 5.7
  (Package Relative Imports) of the Python Language Reference makes it an error
  (`ClimbingOutFallsBackExactlyWhen`).
- The line reported for an SQL statement in Pro*C is too small when EXEC and SQL stand on different lines
  (`SqlLineIsRightExactlyWhen`, `SqlLineExample`); overlapping spans would lengthen the blanked text
  (`BlankAllKeepsLengthExactlyWhen`, `OverlapExample`).

## Model

| member | source | states |
|---|---|---|
| GithubWorld.StepKeepsIngestedWasWalked | ingestion/adapters/github/store.py:195-297 | every step of the protocol, kills, torn clones and lost directories included, keeps: a recorded ingest has a completed walk |
| GithubWorld.RunKeepsIngestedWasWalked | ingestion/adapters/github/service.py:15-19 | in every reachable state each ingested commit was walked |
| GithubWorld.SkipHasEarlierWalk | ingestion/adapters/github/adapter.py:85-117 | over every run, kills included, a repository is skipped only if an earlier iteration fetched this very commit and completed its walk |
| GithubWorld.WalksAreCompletedIterations | ingestion/adapters/github/adapter.py:103-117 | the set of walks holds nothing but iterations of the run that completed |
| GithubWorld.StepKeepsSound | ingestion/adapters/github/service.py:66-128 | every disciplined step keeps: distinct directories, trees at the commit of their row, honest walks; removals killed midway are steps too |
| GithubWorld.RunKeepsSound | ingestion/adapters/github/service.py:130-189 | in every state of a disciplined run a clone with a recorded commit has its tree at that commit, torn clones that no row trusts included |
| GithubWorld.SkipHasHonestWalk | ingestion/adapters/github/adapter.py:85-100 | over disciplined runs a skipped commit was walked in a tree at exactly that commit |
| GithubWorld.WalkIsHonestExactlyWhen | ingestion/adapters/github/cloner.py:110-138 | an iteration that completes adds a walk of another commit than the one recorded if and only if the fast path trusts a tree that sits elsewhere and the commit is not ingested yet |
| GithubWorld.RemovalIsExact | ingestion/adapters/github/service.py:101-109 | a removal takes the row and, exactly if told to, its directory; every other row, directory and place in the order stays |
| GithubWorld.RemovedIsClonedAgain | ingestion/adapters/github/service.py:101-109 | registered and fetched again, it is cloned anew after a removal with its clone, and reset to the head after one without |
| GithubWorld.StepsAreRecorded | ingestion/adapters/github/store.py:253-297 | what each step writes into its row: commits, status and error |
| GithubWorld.RegisteredAndFetched | ingestion/adapters/github/cloner.py:71-138 | a registration touches no directory; a fetch leaves the tree of its row at the head, or trusts it as it is; one that fails leaves a clone alone and nothing else in its place; no other directory changes |
| GithubExtraction.ExtractionIsRun | ingestion/adapters/github/adapter.py:65-127 | an extraction is a run of the protocol, so the theorems about runs hold for it |
| GithubExtraction.OneRepoSettles | ingestion/adapters/github/adapter.py:85-117 | one iteration canonicalises its url again and brings the row and tree found there to the fetched commit unless it raises; every other row and directory is left alone, and a url turned away changes nothing |
| GithubExtraction.FailureFreeExtractionCatchesUp | ingestion/adapters/github/service.py:130-189 | from any state, an extraction that does not raise ends with ingested = observed = remote head for every row that some url leads to and whose fetch succeeds, and with its tree there if the state was sound; rows that no url leads to stay as they were |
| GithubExtraction.RecoveryAfterAnyRun | ingestion/adapters/github/service.py:15-19 | after any disciplined run with any number of failures, one failure-free extraction restores the row and tree of every repository that a registered url still leads to, of every stable one in particular, and of no other |
| GithubExtraction.SecondExtractionSkipsAll | ingestion/adapters/github/adapter.py:97-100 | with unmoved heads a second extraction skips everything and changes nothing but the status |
| GithubExtraction.BuiltIsRecordedEvenIfRaised | ingestion/adapters/github/adapter.py:102-117 | whatever was built is recorded as ingested, also if a later repository raises |
| GithubExtraction.ExtractionOutcome | ingestion/adapters/github/adapter.py:85-117 | from any sound state, an extraction raises if and only if some url cannot be canonicalised again or the walk of some due one fails, and builds exactly what is due before that; due means fetched, not ingested, and first to lead to its row |
| GithubExtraction.ExtractionDelivers | ingestion/adapters/github/adapter.py:85-127 | an extraction in which nothing fails returns, in the order of the urls, the services and artifacts of each walk that was due at its head, and nothing else; it reports what could not be fetched and what was skipped |
| GithubExtraction.RecordsAreLostExactlyWhen | ingestion/adapters/github/adapter.py:85-117 | something is recorded as ingested and never returned if and only if some url fails, by its walk or by being turned away, and a due one stands before every failing one |
| GithubExtraction.LostRecordsAreSkipped | ingestion/adapters/github/adapter.py:97-117 | what was lost is not returned by the next extraction either, as long as its head has not moved |
| GithubExtraction.LostRecordsExample | ingestion/adapters/github/adapter.py:102-117 | an instance in which a record is lost |
| GithubExtraction.InvalidUrlLosesRecordsExample | ingestion/adapters/github/adapter.py:85-100 | another, in which no walk fails and a registered url is turned away |
| GithubExtraction.KilledFetchMisleadsTheWalk | ingestion/adapters/github/cloner.py:110-138 | a kill between git work and row update plus a rewinding remote makes the walk see another commit than the one recorded |
| GithubExtraction.TornCloneMisleadsTheWalk | ingestion/adapters/github/cloner.py:140-163 | a removal killed while it deletes files leaves a tree that the next fetch trusts and the walk reads |
| GithubExtraction.SharedPathMisleadsTheWalk | ingestion/adapters/github/cloner.py:68-69 | so does a directory shared by two urls |
| GithubService.GitHubStore.UpsertRepo | ingestion/adapters/github/store.py:195-223 | registering again refreshes path and branch and keeps both recorded commits; the order of registration stays |
| GithubService.GitHubStore.DeleteRepo | ingestion/adapters/github/store.py:248-251 | removes the row and reports whether there was one |
| GithubService.GitHubStore.RecordClone | ingestion/adapters/github/store.py:253-265 | sets the observed commit, never the ingested one |
| GithubService.GitHubStore.RecordIngest | ingestion/adapters/github/store.py:267-277 | sets the ingested commit, never the observed one |
| GithubService.GitHubStore.MarkError | ingestion/adapters/github/store.py:279-284 | changes neither commit |
| GithubService.GitHubStore.ClearSha | ingestion/adapters/github/store.py:286-297 | forgets the observed commit and keeps the ingested one |
| GithubService.RepoCloner.CloneOrUpdate | ingestion/adapters/github/cloner.py:71-138 | clones, updates or trusts the tree; a failed clone leaves no directory |
| GithubService.RepoCloner.CleanAll | ingestion/adapters/github/cloner.py:149-163 | removes every directory and counts them |
| GithubService.GitHubService.AddRepo | ingestion/adapters/github/service.py:66-93 | canonicalises, refines the registration step and returns the row; an invalid url changes nothing |
| GithubService.GitHubService.RemoveRepo | ingestion/adapters/github/service.py:101-109 | canonicalises and refines the removal step; an unknown or invalid url changes nothing |
| GithubService.GitHubService.CleanOne | ingestion/adapters/github/service.py:119-128 | clears the observed commit only if a directory was removed |
| GithubService.GitHubService.CleanClones | ingestion/adapters/github/service.py:111-118 | removes all clones and clears the observed commit of every row |
| GithubService.GitHubService.EnsureFresh | ingestion/adapters/github/service.py:130-167 | canonicalises and refines the fetch step: the row follows git's answer, errors are recorded, an unregistered or invalid url changes nothing |
| GithubService.GitHubService.IsIngested | ingestion/adapters/github/service.py:169-175 | true exactly for the recorded, non-empty ingested commit of the canonical url |
| GithubService.GitHubService.RecordIngest | ingestion/adapters/github/service.py:177-189 | refines the recording of an ingest under the canonical url |
| GithubService.GitHubService.GetStatus | ingestion/adapters/github/service.py:193-211 | one entry per repository in order; an ingest is due exactly unless row and ingested commit agree on some commit |
| GithubService.GitHubAdapter.Extract | ingestion/adapters/github/adapter.py:65-127 | the loop computes the extraction that the theorems speak of; raising drops everything collected; an invalid url asked for raises before anything is fetched |
| GithubService.GitHubAdapter.ExtractOne | ingestion/adapters/github/adapter.py:85-117 | fetch, skip, walk, record for one url |
| GithubService.Selected | ingestion/adapters/github/adapter.py:76-79 | the registered urls that are allowed, in the order of registration, none twice |
| RepoUrl.NormalizeIsStableExactlyWhen | ingestion/adapters/github/service.py:220-237 | a canonical url is its own canonical form if and only if it ends in no slash, space or ".git" |
| RepoUrl.NormalizedIsExact | ingestion/adapters/github/service.py:220-237 | a trimmed value with a scheme or an at-sign, or one that starts like a path, is kept; owner and name with a slash between become their url at GitHub; nothing else is accepted |
| RepoUrl.SpellingsAgree | ingestion/adapters/github/service.py:220-237 | `owner/name`, the full url, and the full url with a trailing slash or ".git" have one canonical form, and it is stable |
| RepoUrl.RegisteredUrlIsFetchedExactlyWhen | ingestion/adapters/github/service.py:130-140 | a registered canonical url reaches its own row if and only if it is stable; otherwise the call is turned away as invalid, or is about another url and fails unless that one is registered too |
| RepoUrl.DoubledSuffixExample | ingestion/adapters/github/service.py:220-237 | a url with the suffix twice: its canonical form is canonicalised to another one |
| RepoUrl.InvalidOnTheSecondCallExample | ingestion/adapters/github/service.py:220-237 | a url whose canonical form is turned away |
| MigrationPrograms.KilledProgramTracksOnlyBuilt | ingestion/adapters/datadog/store.py:182-197 | a program killed after any statement tracks only versions whose tables all exist |
| MigrationPrograms.ExecutePending | ingestion/adapters/datadog/store.py:140-146 | a complete pass creates and tracks exactly what was not skipped |
| MigrationPrograms.KilledPassTracksInOrder | ingestion/adapters/datadog/store.py:140-146 | a pass killed after any statement has tracked no version without every earlier one |
| SqlMigrations.OpenedEffect | ingestion/adapters/datadog/store.py:107-158 | the tables and versions after a run, from any database |
| SqlMigrations.ReturnsExactlyWhen | ingestion/adapters/datadog/store.py:107-176 | a run returns if and only if every required table exists, belongs to an untracked version, or to the first migration |
| SqlMigrations.ReturnedRunIsComplete | ingestion/adapters/datadog/store.py:107-158 | after a run that returns everything is tracked, all required tables exist, and the next run issues no statement |
| SqlMigrations.RaisedRunRaisesAgain | ingestion/adapters/datadog/store.py:147-158 | a run that raises has healed all it can |
| SqlMigrations.LaterTableIsNotHealedExample | ingestion/adapters/datadog/store.py:147-158 | a database that has lost a table of its second migration cannot be opened |
| SqlMigrations.KilledAttemptsKeepTrackedBuilt | ingestion/adapters/datadog/store.py:107-197 | after any number of killed attempts a tracked version has all its tables |
| SqlMigrations.KilledAttemptsTrackInOrder | ingestion/adapters/datadog/store.py:107-158 | after any number of killed attempts the tracked versions have no gap, if they had none before |
| SqlMigrations.CompleteRunRecovers | ingestion/adapters/github/store.py:105-180 | after any killed attempts on a new file one complete run builds and tracks everything |
| SqlMigrations.Store.RunMigrations | ingestion/adapters/datadog/store.py:107-158 | issues exactly the statements of the specified program, and reports success exactly when the program returns |
| SqlMigrations.Store.ApplyMigration | ingestion/adapters/datadog/store.py:182-197 | creates first, tracks last |
| SqlMigrations.Store.ApplyPending | ingestion/adapters/datadog/store.py:130-146 | applies the untracked migrations in order |
| GraphMigrations.CompleteRunBuildsEverything | core/graph/migrations/migrator.py:105-136 | a complete run tracks and builds every version |
| GraphMigrations.KilledRunTracksOnlyBuilt | core/graph/migrations/migrator.py:126-136 | a killed run tracks only built versions |
| GraphMigrations.SecondRunReappliesOnlyTheFirst | core/graph/migrations/migrator.py:105-124 | a second run leaves the database as it is and reports exactly version 1 as applied |
| GraphMigrations.ApplyPending | core/graph/migrations/migrator.py:105-124 | state, applied and skipped lists of a run |
| GraphMigrations.AppliedIsExact | core/graph/migrations/migrator.py:105-124 | a run applies what is not tracked and version 1, and skips the rest |
| AliasExpansion.Expand | core/resolvers/function_call_resolver.py:888-904 | the explicit-stack walk terminates on every finite map, cyclic ones included, and yields the specified expansion |
| AliasExpansion.ExpansionHasNoDuplicates | core/resolvers/function_call_resolver.py:888-904 | no key is yielded twice |
| AliasExpansion.ExpansionStaysWithinDepth | core/resolvers/function_call_resolver.py:888-904 | every key yielded is at most five re-exports away |
| AliasExpansion.ExpansionIsClosure | core/resolvers/function_call_resolver.py:888-904 | if no simple path from the start is longer than the bound, exactly the reachable keys are yielded |
| AliasExpansion.NothingIsMissedExactlyWhen | core/resolvers/function_call_resolver.py:888-904 | for any map, no reachable key is missed if and only if every re-export of a yielded key is yielded |
| AliasExpansion.DirectReexportsAreYielded | core/resolvers/function_call_resolver.py:888-904 | direct re-exports are always yielded, and the start comes first |
| AliasExpansion.TwoHopsCanBeMissed | core/resolvers/function_call_resolver.py:888-904 | a map on which a key two re-exports away is missed |
| ModulePath.InitFileToModule | core/languages/resolution.py:42-73 | the longest fitting suffix decides the module of a file |
| ModulePath.ModuleIsExact | core/languages/resolution.py:42-73 | the file without the longest suffix that fits, slashes turned into separators; nothing if no template fits |
| ModulePath.BestSuffixIsLongest | core/languages/resolution.py:55-73 | the suffix chosen fits and is as long as any that fits |
| ModulePath.CandidateLeadsBackExactlyWhen | core/languages/resolution.py:10-27 | a candidate of a module leads back to the module if and only if no longer suffix fits it |
| ModulePath.FileIsCandidateOfItsModuleExactlyWhen | core/languages/resolution.py:42-73 | for any templates: a fitting file is a candidate of its module if and only if its stem is non-empty, starts with no slash and holds no separator, or a template that the inverse ignores makes it |
| ModulePath.OneDotIsThePackage | core/resolvers/function_call_resolver.py:872-886 | one leading dot names the package |
| ModulePath.AnotherDotClimbs | core/resolvers/function_call_resolver.py:872-886 | each further dot climbs one package |
| ModulePath.ClimbingOutFallsBackExactlyWhen | core/resolvers/function_call_resolver.py:872-886 | a non-empty target is left bare if and only if there are no dots or more dots than parts of the package |
| NameResolution.BuildAliasMap | core/resolvers/function_call_resolver.py:844-870 | the targets of each pair are its re-exports, in the order of the import facts, each read by the language of its file |
| NameResolution.ReexportsAreExact | core/resolvers/function_call_resolver.py:844-870 | the re-exports of a pair are those that some import makes: of an aggregator file whose package has the module of the pair, of a name imported as the name of the pair, from the module that its dots lead to |
| NameResolution.ReexportsConcat | core/resolvers/function_call_resolver.py:844-870 | they stand in the order of the import facts |
| NameResolution.LookupByModule | core/resolvers/function_call_resolver.py:706-720 | the entry of the first pair in expansion order that has one, in its first candidate file, or none if no pair has any |
| NameResolution.FirstKeyIsFirst | core/resolvers/function_call_resolver.py:706-720 | what the walk over pairs and candidate files returns, for any table |
| NameResolution.LookupFollowsReexports | core/resolvers/function_call_resolver.py:706-720 | hits are at most five re-exports away; with short simple paths a definition is found whenever one is reachable |
| NameResolution.IndexByFileAndName | core/resolvers/function_call_resolver.py:103-112 | the artifact listed last under a file and a name |
| SyntaxWalk.IterCalls | core/languages/python/tree_sitter_grammar.py:934-946 | the explicit stack visits what the recursive traversal visits, in order |
| SyntaxWalk.WalkBlock | core/languages/python/tree_sitter_grammar.py:110-186 | appends exactly the specified calls of a block |
| SyntaxWalk.HandleDecorated | core/languages/python/tree_sitter_grammar.py:271-297 | goes to the decorated definition only |
| SyntaxWalk.EmitDefinition | core/languages/python/tree_sitter_grammar.py:303-385 | parameters, then the body; nothing without a name |
| SyntaxWalk.PartsAreWhereTheyStand | core/languages/python/tree_sitter_grammar.py:271-297 | the decorated definition is the named child behind which no named one stands; the part under a field name is the first child with that name |
| SyntaxWalk.WalkedConcat | core/languages/python/tree_sitter_grammar.py:110-186 | statements are walked in their order |
| SyntaxWalk.IteratedInOrder | core/languages/python/tree_sitter_grammar.py:934-946 | within an expression a call comes before those in it, and what stands to the right comes first |
| SyntaxWalk.WalkAccount | core/languages/python/tree_sitter_grammar.py:110-186 | for every tree: calls visited plus calls missed are the calls meant, as multisets |
| SyntaxWalk.WalkIsCompleteExactlyWhen | core/languages/python/tree_sitter_grammar.py:110-186 | the walk visits exactly the meant calls if and only if nothing is missed |
| SyntaxWalk.WalkVisitsTheMeantCalls | core/languages/python/tree_sitter_grammar.py:110-186 | on trees where definitions stand in blocks the walk visits exactly the meant calls, those of decorated definitions included; what is meant is told by the places of the children |
| SyntaxWalk.NoCallIsVisitedTwice | core/languages/python/tree_sitter_grammar.py:934-946 | in every tree whose named nodes have distinct ids, whatever its tokens, no call node is visited twice |
| SyntaxWalk.TwoCallsExample | core/languages/python/tree_sitter_grammar.py:934-946 | two calls with their parentheses are such a tree, and both are visited |
| EnclosingLookup.EnclosingArtifact | core/resolvers/function_call_resolver.py:990-1008 | the loop computes the smallest covering range |
| EnclosingLookup.SmallestIsFirstSmallest | core/resolvers/function_call_resolver.py:990-1008 | there is a result exactly when something covers, and it is the first of the smallest |
| EnclosingLookup.BaseNameIsLastPart | core/resolvers/db_access_resolver.py:162-167 | the base name is what stands behind the last slash |
| EnclosingLookup.EnclosingIsInnermost | core/resolvers/function_call_resolver.py:990-1008 | on nested ranges the result lies inside every covering range |
| EnclosingLookup.EnclosingArtifactId | core/resolvers/db_access_resolver.py:116-159 | the one-pass lookup computes the two tiers |
| EnclosingLookup.LatestIsFirstLatest | core/resolvers/db_access_resolver.py:150-157 | the fallback is the first of those that start last |
| EnclosingLookup.EnclosingIdPrefersCovering | core/resolvers/db_access_resolver.py:116-159 | a covering multi-line range always wins, otherwise the latest start at or before the line; nothing only if nothing eligible starts there |
| EnclosingLookup.EnclosingIdIsExact | core/resolvers/db_access_resolver.py:116-167 | told from paths and lines alone: the id is that of the first of the shortest artifacts around the line, failing that of the first of the latest starters before it; files are one if a path ends in the other or their base names agree |
| EnclosingLookup.FallbackIsAsDocumentedExactlyWhen | core/resolvers/db_access_resolver.py:116-159 | the fallback keeps to declarations without an end line if and only if no artifact that has ended is the first of the latest starters |
| EnclosingLookup.EndedFunctionExample | core/resolvers/db_access_resolver.py:150-157 | a statement below a function that has ended is charged to it |
| CallEdges.Resolve | core/resolvers/function_call_resolver.py:87-218 | edges and updated artifacts are the specified ones |
| CallEdges.EmitCallEdges | core/resolvers/function_call_resolver.py:135-190 | the call loop keeps exactly the acceptable proposals of the call sites |
| CallEdges.EmitAliasEdges | core/resolvers/function_call_resolver.py:270-336 | so does the pass over parameter types |
| CallEdges.Bookkeeping.Record | core/resolvers/function_call_resolver.py:166-190 | edge list, set of pairs and callee lists stay in agreement |
| CallEdges.KeepAllIsExact | core/resolvers/function_call_resolver.py:166-190 | what is kept of a list of proposals: each pair other than a self-loop, once |
| CallEdges.EdgesAreExact | core/resolvers/function_call_resolver.py:135-218 | for any resolver that answers with input artifacts: an edge for every pair other than a self-loop such that the smallest artifact around some call has the one id and what the call names, or else what is handed over to it, has the other, or such that a parameter type of the one refers to the other; each once, with the text of such a call or type as its reason, both ends input artifacts, and no other edge |
| CallEdges.CallerIsExact | core/resolvers/function_call_resolver.py:990-1008 | the caller is the first of the smallest artifacts of the file whose lines surround the call |
| CallEdges.EdgesComeInOrder | core/resolvers/function_call_resolver.py:135-190 | the edges of the first calls stand in front |
| CallEdges.ArtifactIsExact | core/resolvers/function_call_resolver.py:192-218 | the calls of an artifact are its wanted callees, none twice, if it has any, and what they were otherwise; nothing else about it changes |
| CallEdges.CalleesAreTheLinked | core/resolvers/function_call_resolver.py:192-218 | the callee list of an artifact holds exactly its linked callees, none twice |
| CallTargets.BuildFileImports | core/resolvers/function_call_resolver.py:924-962 | the imports of each file: bare modules longest first, aliases, names in order |
| CallTargets.IndexMethods | core/resolvers/function_call_resolver.py:103-117 | the method listed last under a file, a class and a name |
| CallTargets.FindTarget | core/resolvers/function_call_resolver.py:396-596 | the six steps in their order compute the specified target |
| CallTargets.FindOnReceiver | core/resolvers/function_call_resolver.py:440-596 | modules, aliases, submodules, parameters, variables and singletons, the first that hits |
| CallTargets.FindMethodByType | core/resolvers/function_call_resolver.py:673-704 | own class first, then the imported types through re-exports |
| CallTargets.FindSingleton | core/resolvers/function_call_resolver.py:598-623 | the file and the type of an imported singleton |
| CallTargets.FindTargets | core/resolvers/function_call_resolver.py:135-165 | the tables are built once; each call gets the target seen from the artifact around it |
| CallRules.CallTargetIsExact | core/resolvers/function_call_resolver.py:396-596 | a call has exactly the target that the rules give it: each of the six steps is told from import facts, parameter and attribute types and artifacts, and decides if those before it find nothing |
| CallRules.SiteTargetIsExact | core/resolvers/function_call_resolver.py:135-165 | so has a call site, seen from the smallest artifact around it, a function handed over included |
| CallRules.InjectedIsExact | core/resolvers/function_call_resolver.py:625-671 | a function handed to a dependency marker is looked up by its name in the file of the call |
| CallRules.AliasedIsExact | core/resolvers/function_call_resolver.py:270-364 | the dependencies of a function are those that the type aliases of its parameters name |
| CallRules.HintIsExact | core/resolvers/function_call_resolver.py:521-535 | a receiver that is a parameter has the type of the first parameter of that name, whatever stands before it, and none only if no parameter has the name |
| CallRules.HeadAndRestAreExact | core/resolvers/function_call_resolver.py:440-535 | a receiver is divided at its first dot, and at that only |
| CallRules.RenamedIsExact | core/resolvers/function_call_resolver.py:924-962 | a name stands for the target of the import that binds it last |
| CallRules.FromNamesAreExact | core/resolvers/function_call_resolver.py:924-962 | the names a file imports, each with its module, are those of its import facts |
| CallRules.FromNamesConcat | core/resolvers/function_call_resolver.py:924-962 | they stand in the order of the facts |
| CallRules.MethodIsExact | core/resolvers/function_call_resolver.py:103-117 | a method is the last listed artifact of its file and class with its name |
| CallRules.ClassIsExact | core/resolvers/function_call_resolver.py:1011-1020 | the class of a method is what stands before the first dot in the last part of its id; nothing else has one |
| CallPlaces.CallTargetIsFirstListed | core/resolvers/function_call_resolver.py:396-596 | the six steps, whatever the receiver, are one list of places that the artifacts have no influence on; the first place that lists something decides |
| CallPlaces.CallTargetIsFoundExactlyWhen | core/resolvers/function_call_resolver.py:396-596 | any call is resolved if and only if some artifact answers at one of its places, and then to the last listed of those that answer at the first such place |
| CallPlaces.TargetsAreInputs | core/resolvers/function_call_resolver.py:338-720 | whatever a call, a handed-over dependency or a type alias resolves to is an input artifact |
| CallPlaces.EdgesOfCodeAreExact | core/resolvers/function_call_resolver.py:87-218 | the same with this resolver, and with nothing assumed |
| CallTargets.NamedTargetIsFoundExactlyWhen | core/resolvers/function_call_resolver.py:366-394 | a bare call is resolved if and only if the file defines the name or some import of it leads to a definition, and then to such a one, its own first |
| Attempts.SameFindsExactlyWhen | core/resolvers/function_call_resolver.py:673-720 | two lists of places find the same in every list of artifacts if and only if they agree after the places that can never decide are left out |
| RelativeImports.DotsAreDropped | core/resolvers/function_call_resolver.py:924-962 | the whole resolver, for every call, handed-over dependency and type alias, reads the imports as if they were absolute |
| RelativeImports.ResolvedAsMeantExactlyWhen | core/resolvers/function_call_resolver.py:396-596 | for any call: it is resolved as its imports mean it, for all artifacts, if and only if reading the imports with and without dots leads to the same places, those that can never decide left out |
| RelativeImports.DotsDoNoHarmWhen | core/resolvers/function_call_resolver.py:924-962 | in particular when no import of the file has dots that lead to another module |
| RelativeImports.OneDotIsTheParent | core/resolvers/function_call_resolver.py:872-886 | with the dots read as in the map of re-exports, one dot in a plain file names the package around it |
| RelativeImports.SiblingImportIsMissedExample | core/resolvers/function_call_resolver.py:366-394 | a relative import of a sibling module: its function, which is meant, is missed, and one of a module at the root is taken |
| CoverageLinks.ResolveCoverage | core/resolvers/coverage_resolver.py:91-161 | edges and updated tests are the specified ones |
| CoverageLinks.RecordsAgree | core/resolvers/coverage_resolver.py:115-161 | the covered set and the edges of a test hold the same artifacts, the proposed ones |
| CoverageLinks.CoverageIsExact | core/resolvers/coverage_resolver.py:115-161 | a test is linked to an artifact exactly when one of its imports, through re-exports and candidate files, leads there; its record lists exactly the linked ones, sorted |
| CoverageLinks.EdgesAreJustified | core/resolvers/coverage_resolver.py:115-161 | every edge starts at its test and gives the wording of an import that leads to its artifact |
| CoverageLinks.EdgesRepeatExactlyWhen | core/resolvers/coverage_resolver.py:115-150 | for all artifacts and imports: a test has two edges to one artifact if and only if a bare import of its file leads to an id that an earlier import leads to, or that its own candidate files list twice |
| CoverageLinks.TwoBareImportsExample | core/resolvers/coverage_resolver.py:137-150 | two bare imports of one module give two edges |
| OracleCalls.ResolveOracleCalls | core/resolvers/oracle_call_resolver.py:50-127 | the three loops compute the specified pass and the returned artifacts |
| OracleCalls.BuildIndex | core/resolvers/oracle_call_resolver.py:58-81 | the two dictionaries, in insertion order where the scan depends on it |
| OracleCalls.LookupFindsProcedures | core/resolvers/oracle_call_resolver.py:133-156 | a qualified call finds a procedure of the package whenever some repository declares one, its own repository first; an unqualified call finds the procedure of that name listed last in its own repository, and none only if there is none |
| OracleCalls.UnqualifiedIsNotUniqueExample | core/resolvers/oracle_call_resolver.py:133-156 | of two procedures with one name the last answers an unqualified call |
| OracleCalls.StubsAreTheUnresolved | core/resolvers/oracle_call_resolver.py:83-186 | the stubs made are exactly those of the call statements that the input artifacts leave unresolved, each once |
| OracleCalls.ApplyCallEdges | core/resolvers/oracle_call_resolver.py:223-241 | the new calls are the specified ones |
| OracleCalls.NoDanglingTargets | core/resolvers/oracle_call_resolver.py:83-127 | every edge starts at an input artifact and ends at a returned one, stubs made on the way included |
| OracleEdges.LinksAreExact | core/resolvers/oracle_call_resolver.py:83-127 | every edge has a call or a call statement inside its source that names its target, and all such edges are drawn as long as no procedure name in a statement holds a colon |
| OracleEdges.QualifiedCallIsExact | core/resolvers/oracle_call_resolver.py:133-156 | a qualified call goes to the procedure of the package that its own repository lists last, failing that to the one listed last by the repository that lists one first |
| OracleEdges.StubIsExact | core/resolvers/oracle_call_resolver.py:159-186 | the record of a stub: its id holds the last two parts of the text, its name the whole |
| OracleCalls.AppliedIsCanonical | core/resolvers/oracle_call_resolver.py:223-241 | new calls are the sorted union of old calls and targets; edge order does not matter; applying again changes nothing |
| OracleCalls.ReturnedIdsAreDistinctExactlyWhen | core/resolvers/oracle_call_resolver.py:112-127 | the returned ids are distinct if and only if the input ids were and no unresolved call statement makes a stub with the id of an input |
| OracleCalls.SecondRunMakesTheStubsAgain | core/resolvers/oracle_call_resolver.py:50-186 | over the output of any run, unless a tree is named "external", a second run makes the very same stubs |
| OracleCalls.SecondRunRepeatsTheStubs | core/resolvers/oracle_call_resolver.py:50-186 | with distinct ids and nothing named "external", a second run changes no artifact and appends every stub a second time |
| OracleCalls.StubIsNotFoundAgain | core/resolvers/oracle_call_resolver.py:159-186 | a stub fed back alone does not answer for its procedure |
| OracleCalls.SecondLookupNeverHelps | core/resolvers/oracle_call_resolver.py:204-220 | the second lookup for Pro*C facts repeats the failed one |
| OracleCalls.PkgRoundTrip | core/resolvers/oracle_call_resolver.py:246-259 | the package is recovered from an id whose repository and package hold no colon |
| DbAccess.ResolveDbAccess | core/resolvers/db_access_resolver.py:44-100 | artifacts and tables returned are the specified ones |
| DbAccess.Ledger.Note | core/resolvers/db_access_resolver.py:69-86 | one access keeps the sets of accesses and the dictionary of tables in step |
| DbAccess.AccessIsExact | core/resolvers/db_access_resolver.py:57-98 | reads and writes are the sorted union of the old ones and of the tables named by the enclosed statements |
| DbAccess.TouchedTablesAreReturned | core/resolvers/db_access_resolver.py:71-100 | a table artifact for each table accessed, once, and for no other, with the record of that table |
| DbAccess.ReturnedIdsAreDistinctExactlyWhen | core/resolvers/db_access_resolver.py:97-100 | the returned ids are distinct if and only if the input ids were and no enclosed statement accesses a table that has the id of an input |
| DbAccess.OneNodePerRepository | core/resolvers/db_access_resolver.py:9-14 | the same table in two repositories is two nodes, unless a repository name holds a colon |
| DbAccess.SecondRunRepeatsTheTables | core/resolvers/db_access_resolver.py:44-100 | resolving the result again changes no artifact and hands out the tables a second time |
| RouterPrefix.BuildParents | core/languages/python/extractors/endpoints/decorator.py:315-391 | a router has one parent, that of its last mount |
| RouterPrefix.EveryMountCountsExactlyWhen | core/languages/python/extractors/endpoints/decorator.py:357-390 | all mounts of a router count if and only if they name one parent and one prefix |
| RouterPrefix.SecondMountReplacesExample | core/languages/python/extractors/endpoints/decorator.py:315-391 | the second mount of a router replaces the first |
| RouterPrefix.ResolvePrefix | core/languages/python/extractors/endpoints/decorator.py:290-312 | the prefix is the reverse concatenation of the pieces named by the returned ids |
| RouterPrefix.ChainIsShort | core/languages/python/extractors/endpoints/decorator.py:290-312 | on every parent map the walk visits no router twice and takes at most one step more than there are parents |
| RouterPrefix.ChainFollowsParents | core/languages/python/extractors/endpoints/decorator.py:290-312 | it follows the parents and stops at a root or before a repetition |
| RouterPrefix.RootedExactlyWhen | core/languages/python/extractors/endpoints/decorator.py:290-312 | the walk ends in a root if and only if some number of mounts above the router reaches one |
| RouterPrefix.PrefixIsFull | core/languages/python/extractors/endpoints/decorator.py:290-312 | on chains that end in a root the walk returns the recursive meaning: prefix of the parent, of the mount, of the router |
| RouterPrefix.JoinPaths | core/languages/python/extractors/endpoints/decorator.py:252-258 | stripped non-empty segments joined by single slashes |
| RouterPrefix.JoinedIsAssociative | core/languages/python/extractors/endpoints/decorator.py:252-258 | a joined path may stand for the parts it came from, in any grouping |
| TraceBuckets.Parse | ingestion/adapters/datadog/trace_parser.py:55-113 | the pass is the group-by: counts, minima and maxima over the spans of each key; no span is lost |
| TraceBuckets.SummaryGrows | ingestion/adapters/datadog/trace_parser.py:63-101 | one more span turns a summary of some spans into a summary of those and it |
| TraceBuckets.TotalOfUpdate | ingestion/adapters/datadog/trace_parser.py:78-101 | how the sum over the buckets follows an update |
| TraceBuckets.SummaryIgnoresOrder | ingestion/adapters/datadog/trace_parser.py:55-113 | spans in any order give the same totals, services and bucket numbers |
| TraceBuckets.ProtocolDependsOnOrder | ingestion/adapters/datadog/trace_parser.py:80-92 | exchanging two spans of a bucket exchanges its protocol |
| TraceBuckets.Connections | ingestion/adapters/datadog/trace_parser.py:103-109 | exactly the buckets that reach the threshold are handed on |
| Sorting.SortProperties | core/adapters/registry.py:82-86 | the sort is a sorted permutation |
| Sorting.SortIsStable | core/adapters/registry.py:82-86 | equal priorities keep the order of registration |
| Sorting.SortFiltered | core/adapters/registry.py:82-86 | leaving adapters out before sorting or after makes no difference |
| PriorityMerge.AdapterRegistry.Register | core/adapters/registry.py:61-65 | a taken name is refused, otherwise the adapter is added at the end |
| PriorityMerge.AdapterRegistry.SetEnabled | core/adapters/registry.py:70-74 | enabling and disabling keep the place in the order |
| PriorityMerge.AdapterRegistry.RunAll | core/adapters/registry.py:79-118 | results and failures of the enabled adapters by descending priority, merged in that order |
| PriorityMerge.MergeResults | core/adapters/merger.py:71-112 | the merged state is the specified one |
| PriorityMerge.EmittedIsExact | core/adapters/merger.py:71-112 | the items met of one kind are those of the results |
| PriorityMerge.EmittedConcat | core/adapters/merger.py:71-112 | they are met in the order of the results |
| PriorityMerge.MergedResult.Accumulate | core/adapters/merger.py:114-130 | first value wins; later ones are conflicts, except for topics |
| PriorityMerge.MergeAccountsForEverything | core/adapters/merger.py:71-130 | the value kept for an id is the first emitted; conflicts plus bucket size are the items emitted, except for topics |
| PriorityMerge.HighestPriorityWins | core/adapters/registry.py:79-118 | the value kept for an id comes from the successful adapter of highest priority, ties by registration, then by emission |
| PriorityMerge.FailuresAreIsolated | core/adapters/registry.py:88-112 | the outcome is that of running only the adapters that do not fail |
| GraphLoad.Chunks | core/graph/loader.py:606-614 | non-empty pieces of at most the batch size, concatenating to the input, as many as the progress log says |
| GraphLoad.LoadingIsIdempotent | core/graph/loader.py:351-415 | nodes before edges: from any graph, writing twice is writing once, suggested edges that rewrite stamps included |
| GraphLoad.EdgesFirstIsNotIdempotent | core/graph/loader.py:90-100 | the order of the statements matters |
| GraphLoad.WrittenEdgesJoinNodes | core/graph/loader.py:372-415 | every edge added or restamped joins two nodes of the result |
| GraphLoad.WritesAddTheirEdges | core/graph/loader.py:372-415 | a batch of edges adds exactly the edges of the rows that find both ends |
| GraphLoad.EdgeCountIsExactWhen | core/graph/loader.py:397-415 | the count of an edge batch is the number of edges it writes if and only if no row dangles and no two rows name one edge |
| GraphLoad.RepeatedRowExample | core/graph/loader.py:313-321 | two rows of one edge: two are counted, one is written |
| GraphLoad.DanglingRowExample | core/graph/loader.py:397-415 | a row without ends is counted and writes nothing |
| GraphLoader.MergeNodes | core/graph/loader.py:351-370 | batching does not show: graph and count of one unbatched pass |
| GraphLoader.MergeEdges | core/graph/loader.py:372-415 | the same for edges |
| GraphLoader.Load | core/graph/loader.py:90-349 | the graph after a load, the node counts, and the edge statistics as summed over the statements |
| LoadedGraph.LoadedEdgesAreExact | core/graph/loader.py:145-349 | from any graph: an edge is there after a load if and only if it was before, or both its ends are there and a record asks for it or it is suggested; what each relation asks for is told from the records, and an edge that no suggestion names has the stamp of a resolver if a record asks for it |
| LoadedGraph.LoadedNodesAreExact | core/graph/loader.py:106-147 | a node is there if and only if it was before or is a record of its label; the properties of its record stand over the ones it had |
| LoadCounts.LinksAreCounted | core/graph/loader.py:163-248 | what is counted as EXPOSES, CALLS, READS, WRITES and COVERS is the number of links of that kind in the records |
| LoadCounts.OptionsAreCounted | core/graph/loader.py:181-321 | an optional reference is counted under its relation if it is given |
| LoadCounts.MembersAreCounted | core/graph/loader.py:149-311 | memberships, initiations and uses of topics are counted once for each record |
| LoadCounts.SuggestionsAreCounted | core/graph/loader.py:329-347 | suggestions are counted for each relation, whatever labels they join, under a name of their own |
| GraphLoader.GroupingIsInvisible | core/graph/loader.py:324-349 | grouping suggested edges by the shape of their statement gives the graph of their plain sequence |
| GraphLoader.LoadTwiceIsLoadOnce | core/graph/loader.py:90-349 | loading the same result again changes nothing, from any graph, and leaves no dangling edge |
| GraphLoader.SuggestionsOverride | core/graph/loader.py:324-349 | an edge that was suggested carries the stamp of its last suggestion; others are as the resolver rows leave them |
| FactTree.FactTree.Append | core/facts/tree.py:38-42 | both indexes stay the in-order filters of all facts |
| FactTree.FactTree.Extend | core/facts/tree.py:38-42 | appends all facts in order |
| FactTree.FactTree.Where | core/facts/tree.py:50-58 | whichever index answers, the answer is the plain in-order filter |
| FactTree.FactTree.SymbolAt | core/facts/tree.py:66-81 | the search within the file finds what a search of all facts would: a definition of the file at or below the line, the nearest such |
| FactTree.NearestIsFirstNearest | core/facts/tree.py:66-81 | the first of the definitions with the least line at or after the given one, none only if there is none |
| FactTree.FactTree.EnclosingClass | core/facts/tree.py:83-105 | of the covering classes that start last the one listed first, none only if no class covers |
| FactTree.FirstCoveringIsDeepest | core/facts/tree.py:95-105 | the first cover in descending order of lines is the deepest |
| BlankSpans.BlankAll | core/languages/proc_c/grammar.py:98-109 | the loop with its moving end computes the blanked text |
| BlankSpans.LengthIsKeptExactlyWhen | core/languages/proc_c/grammar.py:98-109 | overlapping spans lengthen the text by their overlap; the length is kept if and only if the spans are disjoint |
| BlankSpans.OrderedIsDisjointExactlyWhen | core/languages/proc_c/grammar.py:98-109 | sorting gives spans that follow each other if and only if no two of the given ones overlap, in whatever order they came |
| BlankSpans.BlankAllKeepsLengthExactlyWhen | core/languages/proc_c/grammar.py:98-109 | the method keeps the length if and only if no two of the given spans overlap |
| BlankSpans.OverlapExample | core/languages/proc_c/grammar.py:98-109 | two overlapping spans and the longer text they give |
| BlankSpans.BlankingKeepsTheRest | core/languages/proc_c/grammar.py:98-109 | every newline and every character outside the spans stays in place, inside them only newlines and spaces are left |
| BlankSpans.BlankingKeepsLines | core/languages/proc_c/grammar.py:224-225 | every offset has the line number it had |
| BlankSpans.StripNoiseKeepsLines | core/languages/c/grammar.py:174-189 | the four passes over comments and literals keep length and line numbers |
| BlankSpans.PipelineKeepsLines | core/languages/proc_c/grammar.py:77-95 | so does the whole Pro*C pipeline, the sorting of the SQL spans included |
| BlankSpans.SqlLineIsRightExactlyWhen | core/languages/proc_c/grammar.py:112-177 | the line of an SQL statement is right if and only if no newline stands between the start of its block and its body |
| BlankSpans.SqlLineExample | core/languages/proc_c/grammar.py:112-177 | a statement reported one line too early |
| Text.SplitOfJoin | core/resolvers/oracle_call_resolver.py:246-259 | splitting undoes joining when no part holds the separator |
| Text.LowerIsExact | core/resolvers/db_access_resolver.py:69-76 | lower case leaves no capital and changes nothing but capitals, each into its own small letter |
| Text.SortedSetIsCanonical | core/resolvers/oracle_call_resolver.py:236-241 | sorting a set gives one result for one set |

## Left out

- Parameters in place of code: git's answers and the walk of a clone, what an adapter returns, the matches of
  regular expressions, syntax trees, the references of a test, the language and the aggregator test of a file.
- GithubService.GitHubService.EnsureFresh: the cleanup of a partial clone succeeds, authentication failures are
  git errors like others, and time stamps are omitted. A hard reset that fails is no outcome of its own; the tree
  that it, or a removal, leaves when it stops midway is the `Tear` event of `GithubWorld`.
- GithubWorld.RunKeepsSound: discipline means that no kill falls between git work and row update, that no
  directory is torn while its row names another commit than the one left there, and that no two registered urls
  share owner and name; each of the three exclusions is shown to be needed.
- GithubService.GitHubService.AddRepo: the owner and name read off a url are a parameter.
- GithubService.GitHubService.GetStatus: the size of a clone is left out.
- SqlMigrations.Store.RunMigrations: the `.sql` files are not part of this model; every CREATE is taken to be
  IF NOT EXISTS and the first migration to create the tracker table, as the comments beside the code say.
- AliasExpansion.ExpansionIsClosure: goes one way; the condition for all maps is stated on the result by
  `NothingIsMissedExactlyWhen`, since a shape of the map that is equivalent depends on the order of the walk.
- ModulePath.FileIsCandidateOfItsModuleExactlyWhen: separators are single characters.
- SyntaxWalk.WalkBlock: only call facts; the other kinds of facts, generator detection and calls whose callee
  has no text are left out.
- SyntaxWalk.EmitDefinition: functions and classes share one method.
- CallEdges.Resolve: the resolver is a parameter; `CallTargets.ResolverOf` is the one of the repository.
- RelativeImports.ResolvedAsMeantExactlyWhen: an import that climbs out of its package, or has dots where there is
  no package, means the bare module, as in the map of re-exports; the language makes it an error.
- CallTargets.FindTarget: the tables of parameter types, attribute types, module variables and type aliases,
  which are read off symbol and assignment facts, are inputs.
- CoverageLinks.ResolveCoverage: file names are relative to the repository already; the alias map is the
  one of `NameResolution`.
- OracleCalls.ResolveOracleCalls: lower case is that of ASCII letters, and base names are those of paths
  without a trailing slash.
- OracleEdges.LinksAreExact: goes one way for procedure names with a colon, which the names matched in source
  text do not hold; a stub for such a name can be taken for one of another package.
- RouterPrefix.BuildParents: the resolution of child references, the correlation of a router with its own
  prefix and the single-hop mount fallback are left out.
- TraceBuckets.Parse: reading target, endpoint and protocol off a span, the confidence and criticality rules,
  rates, hashed ids and the sorting of the output are left out.
- PriorityMerge.AdapterRegistry.RunAll: validation, enrichment and unregistering are left out.
- GraphLoader.Load: the successive calls are a table; a null property, which the graph database would remove,
  does not occur.
- BlankSpans.PipelineKeepsLines: the PL/SQL noise filter overwrites newlines and is not covered.
- Neo4j, SQLite and git internals, the language-model client, HTTP interfaces, settings and the user
  interface: plumbing around what is modelled.
- Record-building helpers, enum classifiers and thresholds: they would add easy members only.

# Gopherdex, verified

Gopherdex is a registry of Go modules. This project models the algorithms and state machines under its
pages and proves what they promise. `dafny verify dfyconfig.toml` checks all of it.

| file | what it models |
|---|---|
| `Outcomes.dfy`, `Text.dfy`, `Sorting.dfy` | options and results, string operations, stable sorting |
| `EditScripts.dfy`, `EditChains.dfy`, `TwoLetters.dfy`, `Typosquat.dfy` | the distance between names, and the warnings about look-alikes |
| `Semver.dfy`, `VersionGrammar.dfy`, `Latest.dfy` | the order of versions, and which one is the latest |
| `Escape.dfy`, `ProxyRequest.dfy` | escaped names, and the URLs of the module proxy |
| `VulnDb.dfy`, `Advisories.dfy` | which versions a vulnerability report affects, and what advisories compile to |
| `Publishing.dfy`, `PublishCall.dfy`, `BlobStore.dfy`, `ZipKeys.dfy`, `StoredZips.dfy` | publishing with concurrent uploads, quarantines and crashes, on a write-once store |
| `Recency.dfy`, `DocCache.dfy`, `TtlCache.dfy` | the two caches |
| `Downloads.dfy`, `FlushRuns.dfy` | the buffered download counter and the cached 30-day counts |
| `RateLimit.dfy` | the rate limiter |
| `SearchIndex.dfy`, `IndexSteps.dfy`, `SearchTiers.dfy`, `Listings.dfy` | the search index, pages of results, two lists of modules |
| `Roles.dfy`, `RoleCalls.dfy` | organizations, teams, collaborators and invitations |
| `SecondFactor.dfy`, `SignIn.dfy` | authenticator and recovery codes, and two-factor sign-in |
| `Exchange.dfy`, `KeyCache.dfy` | exchanging identity tokens of CI runs, and the issuer's keys |
| `GoMod.dfy`, `GoModLines.dfy` | reading and printing go.mod files |

How the state machines are set up: tables are maps, a transaction is one step, and a statement outside a
transaction is a step of its own. What a request read before it writes may be out of date when it
writes, and in the steps it may be anything. Clocks are whole numbers and never run backwards. Hashes,
codes, letter case outside ASCII, the acceptance and order of versions by `golang.org/x/mod/semver`, and
the splitting of major versions off paths by `golang.org/x/mod/module` are parameters: the results hold
for every such function, with the conditions they state. A character stands for a byte where the code
looks at bytes, and for a code point elsewhere.

Where the code gives less than its comments or a first reading suggest, the model follows the code and
says exactly when the stronger statement holds:

- The distance is not a metric (`EditChains.TriangleInequalityFails`): going through a third string can be
  cheaper, by one for each swap at most (`EditChains.DistanceThrough`). It is a metric on the strings over
  an alphabet exactly when that has two letters at most (`TwoLetters.TriangleIffTwoLetters`).
- Near-equality is not symmetric (`Typosquat.AsymmetryOfNearlyEqual`). Its length test counts bytes while
  the distance counts characters, which loses pairs for every alphabet but ASCII
  (`Typosquat.LosesNothingIffAscii`). Registered names are ASCII (internal/registry/registry.go:124), so
  the registry's own check is not affected.
- The relevance tiers show every match they count only for terms of which one begins the other
  (`SearchTiers.TiersCoverIffNested`).
- A personal module can end up without an owner by deleting an account, or by a co-maintainer's first
  publish of another major version (`Roles.PersonalOwnersKeptIff`, `Roles.RunsThatOrphan`).
- An organization can end up without an owner when an account is deleted whose check was overtaken by
  another departure (`Roles.OrgsHaveOwnersIff`, `Roles.TwoDeletionsLoseAnOrg`).
- A stored zip matches its row unless two different uploads of one version share the sixteen characters
  of hash in the key (`StoredZips.ZipsMatchIffNoneCollide`).
- A reindex reads before its transaction, so requests that overlap can leave search out of date, with a
  module under review still listed or an older version shown (`IndexSteps.MissedIff`,
  `IndexSteps.OneMissedIff`, `IndexSteps.TwoFailingOverlaps`).
- A confirmation of an authenticator app that finds a step no earlier than its own in the row sets the
  last step back (`SecondFactor.StepsRiseIff`): when two confirmations overlap, and after a check that
  overlapped a disabling (`SecondFactor.TwoConfirmationsRepeatAStep`,
  `SecondFactor.StaleCheckOutlivesDisabling`). Without such overlaps it never does
  (`SecondFactor.StepsRiseWithoutOverlap`).
- The limit of ten wrong codes an hour is met by sign-ins one at a time; n at once can reach 9 + n
  (`SignIn.FailuresPerWindow`, `SignIn.BoundIsReached`).
- Used identity tokens are remembered long enough for exchanges that commit within 3540 seconds of
  their verification, and not for later ones (`Exchange.NoTokenTwiceIffPrompt`).
- The comment on `refetchEvery` promises a limit on requests to the issuer; the code applies it only in
  the five minutes after an answer, so an issuer that is silent, or has fallen silent, is asked without
  limit (`KeyCache.AsksIff`, `KeyCache.AgainIffUnanswered`, `KeyCache.SilenceIsNotLimited`).
- Download counts are lost when their module is not known at the time they are written, and when the
  process ends before they are (`FlushRuns.CountsAreHeldOrLostInEveryRun`, `FlushRuns.OnlyRestartsLose`).
- A module path or go version that is an opening parenthesis opens a block when read back
  (`GoMod.PrintedReadsBackIff`).

## Model

| member | source | states |
|---|---|---|
| `EditScripts.DistanceIsLeastCost` | internal/scan/typosquat.go:80-105 | For all strings: no script of keeps, inserts, deletes, substitutions and swaps of neighbours not edited again turns one into the other for less than the distance, and one script costs exactly that |
| `EditScripts.DistanceIsSymmetric` | internal/scan/typosquat.go:80-105 | The distance is the same in both directions |
| `EditScripts.DistanceZeroIffEqual` | internal/scan/typosquat.go:80-105 | The distance is zero exactly for equal strings |
| `EditScripts.DistanceBoundsLengths` | internal/scan/typosquat.go:65-105 | The distance is at least the difference of the lengths |
| `EditChains.ComposeTurns` | internal/scan/typosquat.go:80-105 | Scripts without swaps, one after the other, compose into one that costs no more |
| `EditChains.DistanceThrough` | internal/scan/typosquat.go:80-105 | For every two scripts in a row: the distance from the first string to the last is at most what they cost and one for each of their swaps |
| `EditChains.TriangleInequality` | internal/scan/typosquat.go:80-105 | Going through a third string never costs less than half the distance, and not less than the distance where neither pair of strings leaves room for a swap |
| `EditChains.TriangleInequalityFails` | internal/scan/typosquat.go:80-105 | For any three different characters it does cost less, by as much as the bound allows, to swap two and put the third in between |
| `TwoLetters.Cutting` | internal/scan/typosquat.go:80-105 | Where the target of a script is cut in two its source can be cut too, at no extra cost, unless a swap lies across the cut |
| `TwoLetters.LetterChanged` | internal/scan/typosquat.go:80-105 | Changing or deleting one letter moves a string at most one further from any other |
| `TwoLetters.TriangleIffTwoLetters` | internal/scan/typosquat.go:80-105 | Over an alphabet going through a third string is never cheaper, so the distance is a metric, exactly when the alphabet has two letters at most |
| `Typosquat.FillRow` | internal/scan/typosquat.go:91-100 | The inner loop fills one row from the two rows above it with the table's own cells, and leaves those rows alone |
| `Typosquat.ComputeDistance` | internal/scan/typosquat.go:82-105 | Three rows, rotated and reused, compute the distance: no overwritten cell is read |
| `Typosquat.CheckNearlyEqual` | internal/scan/typosquat.go:65-78 | The length test followed by the distance test is the near-equality the later results are about |
| `Typosquat.LengthTestLosesNothing` | internal/scan/typosquat.go:69-77 | For ASCII names the length test never rejects a pair that the distance test accepts |
| `Typosquat.LengthTestLosesWideNames` | internal/scan/typosquat.go:69-77 | Every character outside ASCII makes a pair of names one edit apart that is rejected for its length in bytes |
| `Typosquat.LosesNothingIffAscii` | internal/scan/typosquat.go:69-77 | Among names over an alphabet the length test rejects no pair that the distance test accepts exactly when the alphabet is ASCII |
| `Typosquat.AsymmetryOfNearlyEqual` | internal/scan/typosquat.go:65-78 | Exactly when two ASCII names are judged differently in the two orders |
| `Typosquat.Check` | internal/scan/typosquat.go:30-60 | The findings are the verdicts on the first candidate of each name, in order |
| `Typosquat.FindingsAreFirstVerdicts` | internal/scan/typosquat.go:30-60 | A finding is reported exactly when it is the verdict on some name's first candidate |
| `Typosquat.ImpersonationReported` | internal/scan/typosquat.go:34-58 | Impersonation is reported exactly when a well-known name is taken and no popular module of the registry, met first, has it too |
| `Typosquat.MisspellingReported` | internal/scan/typosquat.go:34-58 | A misspelling is reported exactly for the listed names nearly equal to this one |
| `Semver.CompareIsAntisymmetric` | internal/module/module.go:235-297 | Swapping the arguments flips the sign, for every pair of strings |
| `Semver.CompareIsTransitiveOnAll` | internal/module/module.go:235-297 | The order is transitive on all strings, invalid ones included |
| `Semver.CompareIsTotalPreorder` | internal/module/module.go:235-297 | So it is a total preorder on all strings, as sorting needs |
| `Semver.TiesExactly` | internal/module/module.go:235-258 | Two strings tie exactly when they are equal, or are versions equal up to +incompatible |
| `Semver.CompareNumByValue` | internal/module/module.go:260-267 | Comparing numerals by length and then as text is comparing their values, at any length |
| `Semver.CompareIdsByRules` | internal/module/module.go:269-297 | Pre-release identifiers compare by the four rules of section 11 of Semantic Versioning 2.0.0, however many there are |
| `Semver.CompareIsPrecedence` | internal/module/module.go:166-297 | On versions the order is the precedence of section 11 of Semantic Versioning 2.0.0 |
| `Semver.BareIsRendered` | internal/module/module.go:166-200 | The parts that parsing finds, printed again, are the version without +incompatible |
| `VersionGrammar.JoinedIsSuffix` | internal/module/module.go:214-237 | Any identifiers joined by dots are a pre-release |
| `VersionGrammar.RenderedParses` | internal/module/module.go:170-200 | Numeric parts, printed with or without the mark, are read as themselves |
| `VersionGrammar.ValidIffRendered` | internal/module/module.go:170-200 | A string is a version exactly when it prints numeric parts, with or without the mark |
| `VersionGrammar.ValidIffWritten` | internal/module/module.go:83-92 | A string is a version exactly when it can be written: three numbers in decimal, a list of identifiers that are numbers or words, and the mark or not |
| `VersionGrammar.WrittenIsRead` | internal/module/module.go:170-200 | What was written is what is read, and it is a pre-release exactly if it has an identifier |
| `VersionGrammar.WrittenCompare` | internal/module/module.go:235-298 | Written versions compare by their numbers and then their identifiers, numbers below words and no identifier above any (section 11 of Semantic Versioning 2.0.0) |
| `Latest.ChooseLatest` | internal/module/module.go:313-329 | The loop over versions computes the function that the next results are about |
| `Latest.LatestIsFirstGreatest` | internal/module/module.go:311-329 | The result is the first valid version that no valid one beats, releases before pre-releases, and empty without a valid version |
| `Latest.PrereleaseIffHyphen` | internal/module/module.go:300-305 | A version is a pre-release exactly when it contains a hyphen |
| `Latest.PreferenceMeans` | internal/module/module.go:311-330 | Of two versions one without a hyphen is preferred; otherwise precedence decides |
| `Latest.LatestIsRelease` | internal/module/module.go:311-330 | While there is a version without a hyphen the latest is one, with no such version above it; else it is one with none above it |
| `Latest.LatestIgnoresOrder` | internal/module/module.go:311-329 | For lists without ties, any order of the same versions gives the same latest |
| `Latest.UnmarkedIsUntied` | internal/module/module.go:235-329 | Versions without a plus sign never tie unless equal |
| `Latest.PreferenceIsTotalPreorder` | internal/module/module.go:318-326 | Releases first, then precedence, is a total preorder |
| `Latest.SortVersionsIsTheSort` | internal/module/module.go:306-309 | Any sorted arrangement of untied versions is the one that sorting gives |
| `Latest.LatestOfSorted` | internal/module/module.go:306-329 | Sorting first does not change the latest |
| `Escape.EscapeString` | internal/module/module.go:133-144 | The loop over characters writes the escaped form |
| `Escape.UnescapeString` | internal/module/module.go:146-164 | The loop over characters reads it back, refusing every string that is not an escaped form |
| `Escape.UnescapeUndoesEscape` | internal/module/module.go:133-164 | Unescaping an escaped string gives it back, for every string without an exclamation mark |
| `Escape.EscapeUndoesUnescape` | internal/module/module.go:133-164 | A string that unescapes is the escaped form of the result, and the only one |
| `Escape.EscapedNamesNeverCollide` | internal/module/module.go:92-144 | Different strings never escape to names equal up to letter case |
| `Escape.PathsRoundTrip` | internal/module/module.go:92-111 | Escaping a checked path and unescaping a name undo each other |
| `Escape.VersionsRoundTrip` | internal/module/module.go:113-131 | The same for versions |
| `Escape.DistinctModulesNeverCollide` | internal/module/module.go:92-111 | Distinct modules never share a file name, even where case is ignored |
| `Escape.ModulePathIff` | internal/module/module.go:46-81 | Exactly which paths pass the check: elements of allowed characters joined by slashes, with no dot at either end, the first with a dot and no hyphen in front |
| `ProxyRequest.ParseUndoesPrint` | internal/goproxy/handler.go:169-201 | Reading a printed URL gives back its module, version and endpoint, for every request |
| `ProxyRequest.PrintUndoesParse` | internal/goproxy/handler.go:169-201 | Every accepted URL prints again as itself |
| `ProxyRequest.RequestsAndUrlsCorrespond` | internal/goproxy/handler.go:169-201 | Requests and accepted URLs are in bijection |
| `VulnDb.CheckAffectsVersion` | internal/vulndb/osv.go:151-177 | The loop over ranges and sorted events decides as the evaluation function says |
| `VulnDb.AffectsModule` | internal/vulndb/osv.go:136-146 | A report affects a module version exactly when one of its entries for that path does |
| `VulnDb.PrefixIsOptional` | internal/vulndb/osv.go:121-132 | A version means the same with its v and without |
| `VulnDb.EvaluateIsMeaning` | internal/vulndb/osv.go:157-174 | Folding sorted events means: the greatest event version at or below this one exists and has no fix |
| `VulnDb.SortedMeansRange` | internal/vulndb/osv.go:157-205 | Any sorted arrangement evaluates to that meaning, so the sorting algorithm does not matter |
| `VulnDb.AffectsVersionByMeaning` | internal/vulndb/osv.go:148-177 | Affected exactly when there are no ranges, or some SEMVER range means it |
| `VulnDb.EventOrderIsIrrelevant` | internal/vulndb/osv.go:151-205 | Listing a range's events in another order changes nothing |
| `VulnDb.LatestFixed` | internal/vulndb/osv.go:207-224 | The result is a fix of the module, none of its fixes is higher, and it is empty exactly when there is none |
| `Advisories.NormalizeRanges` | internal/registry/advisories.go:199-218 | The loop over input rows keeps the non-empty ones in order, or stops at the first bad row |
| `Advisories.NormalizedIsNormal` | internal/registry/advisories.go:199-218 | What passes is never empty, names accepted versions, and puts every fix after its introduction |
| `Advisories.RowSays` | internal/registry/advisories.go:199-218 | Exactly which rows of the form pass, and that a row kept says what its fields say |
| `Advisories.NormalizedSays` | internal/registry/advisories.go:199-218 | The form is taken exactly when every row passes, or refused for its first that does not; the rows that are not blank are kept in order, and blank rows mean every version |
| `Advisories.CompileRanges` | internal/registry/advisories.go:75-89 | The loop compiles one range of events for each interval |
| `Advisories.CompiledRangeMeans` | internal/registry/advisories.go:75-89 | What a compiled range says of a version, whether or not its bounds are in order |
| `Advisories.CompiledMeansIntervalIffInOrder` | internal/registry/advisories.go:75-89 | It means its interval for every version exactly when its fix is not listed below its introduction |
| `Advisories.AdvisoryMeansIntervals` | internal/registry/advisories.go:58-89 | A checked advisory affects exactly the versions in one of its intervals, unless withdrawn |
| `Advisories.HighestFix` | internal/registry/advisories.go:64-73 | The result is a fix of the advisory and none is higher, or there is none |
| `Recency.KeptIffRecent` | internal/discovery/discovery.go:151-178 | A key is among the n most recent exactly when it was used, and fewer than n others since |
| `DocCache.DocCache.Get` | internal/discovery/discovery.go:151-159 | A hit returns the entry and moves its element to the front; a miss changes nothing |
| `DocCache.DocCache.Put` | internal/discovery/discovery.go:161-178 | A put replaces or adds the entry at the front, and list and map keep the same duplicate-free keys |
| `DocCache.DocCache.Evict` | internal/discovery/discovery.go:173-177 | The loop unlinks from the back, and from the map, exactly until 256 remain |
| `DocCache.RunIsExplained` | internal/discovery/discovery.go:138-178 | After every run, the list is the most recently used keys in order, at most 256 of them |
| `DocCache.HitsExactly` | internal/discovery/discovery.go:138-178 | Over every run a key is found, with the value last put, exactly when it was put and fewer than 256 distinct others were used since its last use |
| `TtlCache.TtlCache.Get` | internal/goproxy/client.go:172-180 | A body is returned exactly when stored and unexpired |
| `TtlCache.TtlCache.Put` | internal/goproxy/client.go:182-207 | Replacement, sweep and clearing leave the specified entries, with the byte counter equal to the sum of their lengths |
| `TtlCache.TtlCache.MakeRoom` | internal/goproxy/client.go:191-203 | The sweep, and the clearing if it is not enough, leave the entries specified and the counter right |
| `TtlCache.TtlCache.Sweep` | internal/goproxy/client.go:192-197 | Deleting while walking the map deletes exactly what has expired |
| `TtlCache.RunIsBoundedAndFresh` | internal/goproxy/client.go:156-207 | After every run of puts the bounds hold, and every entry is the latest cacheable body of its key |
| `TtlCache.LimitsHold` | internal/goproxy/client.go:156-207 | With the client's limits, both the entry and the byte limit hold in every state |
| `TtlCache.UnexpiredStay` | internal/goproxy/client.go:172-207 | While each body fits beside what has not expired, nothing unexpired is ever dropped: exactly the latest unexpired bodies are served |
| `RateLimit.Limiter.Allow` | internal/ratelimit/ratelimit.go:46-68 | One call answers and changes the buckets as specified, sweep and cap included |
| `RateLimit.Limiter.Sweep` | internal/ratelimit/ratelimit.go:50-57 | Deleting while walking the map deletes exactly the expired buckets |
| `RateLimit.RunAgrees` | internal/ratelimit/ratelimit.go:46-68 | In every run the buckets are those of a limiter that never deletes, less some expired ones |
| `RateLimit.KeysAreCapped` | internal/ratelimit/ratelimit.go:50-61 | The map never exceeds the key cap |
| `RateLimit.RefusedWhenCrowded` | internal/ratelimit/ratelimit.go:50-61 | A key is refused for the cap only while 200,000 others are remembered whose windows started less than a window and a second ago |
| `RateLimit.SweepingIsInvisible` | internal/ratelimit/ratelimit.go:46-68 | Where the cap refuses nobody, every answer is that of the limiter that never deletes |
| `RateLimit.FewerThanTwiceTheLimit` | internal/ratelimit/ratelimit.go:46-68 | With a clock that never runs back, at most 2 Max - 1 events of a key are allowed in any half-open interval as long as the window |
| `RateLimit.BoundIsReached` | internal/ratelimit/ratelimit.go:46-68 | For every limit, and every window of two ticks or more, a run that reaches that bound |
| `Downloads.Downloads.CountN` | internal/registry/downloads.go:36-44 | A count is added to the buffer under its module, version and day |
| `Downloads.Downloads.Take` | internal/registry/downloads.go:87-94 | The buffer becomes the flush's own batch |
| `Downloads.Downloads.Write` | internal/registry/downloads.go:96-120 | The transaction adds the batch to the rows of known modules and recomputes each touched module's cached count |
| `Downloads.Downloads.Restore` | internal/registry/downloads.go:121-131 | A failed flush puts its batch back into the buffer |
| `Downloads.Downloads.RefreshDownloads` | internal/registry/downloads.go:142-156 | Every cached count is recomputed for the window that ends today |
| `Downloads.Downloads.Flush` | internal/registry/downloads.go:87-140 | With nothing in between: after a non-empty flush that succeeds every cached count is the sum of its rows in the window; a failed transaction changes nothing, and a failed refresh leaves what was written |
| `Downloads.Downloads.ModuleDownloads` | internal/registry/downloads.go:171-206 | One pass over the rows gives the sums of the last 1, 7 and 30 days, of all time, and of each version; the 30-day sum is the one that is cached |
| `Downloads.SumsOneByOne` | internal/registry/downloads.go:142-156 | One more count is in the sums of its module and version, and in that of 30 days exactly while it is less than 30 days old |
| `Downloads.RecomputedCounts` | internal/registry/downloads.go:111-118 | Exactly which cached counts a reindex, a commit and a refresh recompute, and to what |
| `Downloads.CountsAreHeldOrLost` | internal/registry/downloads.go:36-140 | Under every interleaving of counts, flushes and failures, rows, buffer, batches and losses add up to what was counted for each key; lost is what commits hold for modules unknown by then |
| `Downloads.CountsAreConserved` | internal/registry/downloads.go:36-140 | Of a module known at the start nothing is lost |
| `Downloads.StepKeepsCurrent` | internal/registry/downloads.go:87-156 | Counting, flushing, refreshing and reindexing keep each cached count the window's sum of some day since the last refresh |
| `Downloads.CommitKeepsCurrent` | internal/registry/downloads.go:101-119 | A commit keeps this for the modules it does not touch |
| `FlushRuns.StepKeepsSound` | internal/registry/downloads.go:87-156 | So does each statement of a flush with what its next one relies on, marking the day of a refresh, a failed refresh, a failed transaction and a restart among them |
| `FlushRuns.CountsAreCurrentInEveryRun` | internal/registry/downloads.go:87-156 | In every run each cached count is the window's sum of some day since the last refresh |
| `FlushRuns.FlushedCountsAreTodays` | internal/registry/downloads.go:87-140 | After a non-empty flush that succeeds, until midnight and whatever follows but a restart, each cached count is the sum over exactly today's window |
| `FlushRuns.FlushGoesThrough` | internal/registry/downloads.go:87-140 | A flush that nothing disturbs writes every count of a known module and makes every cached count today's, refreshing if there was none today |
| `FlushRuns.FailuresLeave` | internal/registry/downloads.go:121-138 | A failed transaction leaves all as before the flush, a failed refresh what was written, and a restart all but what was not |
| `FlushRuns.OthersAct` | internal/registry/search.go:148-183 | Between its statements, a reindex rewrites its module's count by today's window |
| `FlushRuns.CountsAreHeldOrLostInEveryRun` | internal/registry/downloads.go:36-140 | In every run of these statements, restarts included, what is stored, buffered and being written and what was lost adds up to what was counted |
| `FlushRuns.OnlyRestartsLose` | internal/registry/downloads.go:87-131 | Once a module is published, nothing counted for it is lost but to a restart |
| `SearchIndex.ListedLatestIsGreatest` | internal/registry/search.go:135-160 | However the rows are ordered, the chosen version is the greatest of the unyanked ones |
| `SearchIndex.GreatestIsUnique` | internal/registry/search.go:135-160 | Among checked versions there is only one greatest |
| `SearchIndex.AgreesIffEntry` | internal/registry/search.go:135-183 | The two index rows of a module agree with its rows exactly when they are the entry a reindex makes of them |
| `SearchIndex.Registry.ReadVersions` | internal/registry/search.go:110-131 | One statement reads the unyanked versions, in any order |
| `SearchIndex.Registry.WriteEntry` | internal/registry/search.go:148-183 | The transaction writes the entry of what was read, out of date or not, and touches no other module's rows |
| `SearchIndex.Registry.Reindex` | internal/registry/search.go:135-183 | With nothing in between, the module's two index rows agree with its versions afterwards, and no other rows changed |
| `SearchIndex.Registry.Publish` | internal/registry/registry.go:279-354 | With nothing in between, a publish and its reindex keep the whole index in agreement |
| `SearchIndex.Registry.SetYanked` | internal/registry/maintain.go:172-207 | With nothing in between, so do a yank or unyank and its reindex |
| `SearchIndex.Registry.Deprecate` | internal/registry/maintain.go:214-237 | With nothing in between, so do a deprecation and its reindex |
| `SearchIndex.Registry.SetQuarantined` | internal/registry/trust.go:170-218 | With nothing in between, so do a quarantine or release and its reindex |
| `SearchIndex.Registry.LookUp` | internal/registry/registry.go:518-579 | The first statement of resolving @latest finds exactly the modules with a version that are not under review |
| `SearchIndex.Registry.LatestListed` | internal/registry/registry.go:518-579 | The second lists the unyanked versions, and the greatest of them is chosen |
| `SearchIndex.Registry.LatestVersion` | internal/registry/registry.go:518-579 | With nothing in between, it resolves exactly for modules not under review with an unyanked version, to the greatest of them |
| `SearchIndex.Registry.ShownVersion` | internal/registry/search.go:135-183 | While the index agrees, search shows a module exactly when @latest resolves, and shows the same version |
| `IndexSteps.RunKeepsInv` | internal/registry/search.go:135-183 | With changes, reads, writes and failures of any number of requests in any order, the index always holds the entry of what its last writer read |
| `IndexSteps.IndexHoldsWhatWasRead` | internal/registry/search.go:135-183 | And that is the module's row as it was at the first read, and its versions as they were at the second |
| `IndexSteps.ChangesAre` | internal/registry/registry.go:279-354 | What each change does to the rows, and when it does nothing |
| `IndexSteps.ReindexGoesThrough` | internal/registry/search.go:135-183 | A reindex that nothing disturbs makes the index agree with its module, whatever it said before |
| `IndexSteps.NothingMissedAgrees` | internal/registry/search.go:135-183 | A module's index rows agree with it if no change of its row committed after its last writer read the row, and none of its versions after it read those |
| `IndexSteps.RowChangeAlters` | internal/registry/search.go:159-181 | Exactly which deprecations, quarantines and releases alter the entry of a module |
| `IndexSteps.VersionChangeAlters` | internal/registry/search.go:159-181 | Exactly which publishes, yanks and unyanks do: those of a version that tops the others |
| `IndexSteps.OneMissedIff` | internal/registry/search.go:135-183 | If the last writer missed one change, the index is wrong exactly when that change alters what it wrote |
| `IndexSteps.MissedIff` | internal/registry/search.go:135-183 | However many changes the last writer missed, the index agrees exactly when the entry of what it read is the entry of what they make of that |
| `IndexSteps.NoOverlapAgrees` | internal/registry/search.go:135-183 | If no change of a module commits while a reindex of it is between its first read and its write, and none fails, the index agrees whenever none of its reindexes is under way |
| `IndexSteps.OverlapBreaksIff` | internal/registry/search.go:135-183 | A publish whose reindex reads before a second change and writes after that change's reindex leaves search wrong exactly when the second change alters the entry |
| `IndexSteps.TwoFailingOverlaps` | internal/registry/trust.go:170-203 | So a module put under review meanwhile stays in search, and of two versions published together search shows the older |
| `IndexSteps.CountShortcut` | internal/registry/search.go:361-377 | In every run the two index tables hold the same modules, so counting matches in the full-text table alone is counting them in the join |
| `SearchTiers.TiersAreDisjoint` | internal/registry/search.go:389-400 | No module is in two tiers, and those in a tier are counted in the total |
| `SearchTiers.TiersCoverIffNested` | internal/registry/search.go:389-400 | The tiers show every counted match, whatever is indexed, exactly when of any two terms one begins the other; so for every one-word query |
| `SearchTiers.Page` | internal/registry/search.go:401-423 | For every limit and offset the loop returns that slice of the concatenated tiers |
| `SearchTiers.PagesPartition` | internal/registry/search.go:401-423 | Successive pages give every row once, in order |
| `Publishing.StepOnlyGrows` | internal/registry/registry.go:164-364 | No step of any upload, crash, quarantine or release changes or removes a published version or a stored blob |
| `Publishing.InvIsKept` | internal/registry/registry.go:236-383 | Every step keeps: rows and blobs come from uploads, and what each upload in progress relies on holds |
| `Publishing.RunKeepsInv` | internal/registry/registry.go:236-383 | So it holds in every run |
| `Publishing.PublishedForGood` | internal/registry/registry.go:320-338 | A version's row, with its hash, key and go.mod, is the same in every later state |
| `Publishing.NoCommitUnderReview` | internal/registry/registry.go:284-338 | A version appears only in the transaction of an upload of it, while its module is not under review |
| `Publishing.ReviewHolds` | internal/registry/trust.go:170-218 | A known module put under review gets no new version, whatever is under way, until it is released |
| `Publishing.PublishedIsAnswered` | internal/registry/registry.go:236-383 | An upload of a published version ends with the h1 on record exactly when that is its own, and as a conflict when not, from its start and after a lost race; of a module under review it is refused |
| `Publishing.SuccessesAgree` | internal/registry/registry.go:373-383 | Any two successful publishes of a version report the same h1, the one on record |
| `StoredZips.ZipsMatchIffNoneCollide` | internal/registry/registry.go:258-338 | Every run of a set of uploads keeps every published zip stored with the hashes on record exactly when no two of them are of one version, share the truncated hash, and differ in sha256, h1 or go.mod hash |
| `StoredZips.CollisionBreaksTheMatch` | internal/registry/registry.go:263-270 | Two uploads that collide so: with a crash, a run after which the stored zip is another |
| `Publishing.RetryCompletes` | internal/registry/registry.go:236-338 | Whatever an upload cut off left behind, repeating it from its start publishes it, with the zip already stored or its own, if the version is not there and the module not under review |
| `PublishCall.Registry.PublishedVersion` | internal/registry/registry.go:480-495 | A published version is found exactly when its module is not under review |
| `PublishCall.Registry.Publish` | internal/registry/registry.go:164-383 | With nothing in between, the code's own order of checks, put and transaction is the protocol run to its end; exactly what it answers, and what it leaves behind |
| `BlobStore.Store.Put` | internal/blob/blob.go:99-148 | A free key gets exactly the content; a taken key, a bad key or too large a content changes nothing |
| `BlobStore.Copy` | internal/blob/blob.go:227-244 | Every key it passed over is stored afterwards, counted as copied or skipped; nothing there before is changed |
| `BlobStore.CopyIsIdempotent` | internal/blob/blob.go:227-244 | Copying again copies nothing more |
| `ZipKeys.StoreAcceptsKey` | internal/registry/registry.go:263-268 | The store never refuses the key made for a checked path and version |
| `ZipKeys.KeyIff` | internal/blob/blob.go:78-97 | Exactly which names the store takes |
| `ZipKeys.KeysAreDistinct` | internal/registry/registry.go:263-268 | A key tells its module, its version and the truncated hash |
| `Roles.StepKeepsOrgOwners` | internal/registry/orgs.go:248-257 | Every role transaction leaves each organization with an accepted owner |
| `Roles.OrgOwnersKeptIff` | internal/accounts/profile.go:181-221 | Every transaction does, exactly when it is no deletion of an account that has become an organization's only owner since its check |
| `Roles.OrgsHaveOwnersIff` | internal/registry/orgs.go:42-257 | Throughout a run each organization has an owner exactly when the run has no such deletion |
| `Roles.OrgsAlwaysHaveOwners` | internal/accounts/profile.go:171-221 | So it has one in every run in which nothing comes between a deletion and its check |
| `Roles.TwoDeletionsLoseAnOrg` | internal/accounts/profile.go:181-221 | Two owners who delete their accounts at once: both checks pass, and the organization is left without an owner |
| `Roles.PersonalOwnersKeptIff` | internal/registry/maintain.go:287-369 | A transaction keeps every personal module owned exactly when it is neither the deletion of a last owner's account nor a first publish in someone else's namespace |
| `Roles.DeletionOrphansLastOwned` | internal/accounts/profile.go:171-221 | Deleting an account takes a module's ownership away exactly when it was the last owner's |
| `Roles.RunsThatOrphan` | internal/registry/registry.go:296-315 | Two short runs that leave a personal module without an owner |
| `Roles.AcceptanceIsOwnAct` | internal/registry/invitations.go:80-96 | A membership or role becomes accepted only by its own user's accepting, creating or publishing |
| `Roles.RunIsActed` | internal/registry/invitations.go:80-114 | In every run, accepted memberships, team memberships and roles go back to an act of their user |
| `Roles.NoRoleWithoutAnAct` | internal/registry/maintain.go:48-85 | In every run whoever has a role on a module accepted it, published it first, or joined its organization |
| `Roles.MaintainersHaveRoles` | internal/registry/trust.go:48-76 | The maintainers listed by three queries are exactly the users whose role is at least maintainer |
| `Roles.MaintainersInEveryRun` | internal/registry/trust.go:48-76 | In every reachable state |
| `Roles.RoleMeans` | internal/registry/maintain.go:48-85 | Exactly which rows make an owner of a module, and which a maintainer who is no owner |
| `Roles.MemberChangesCommit` | internal/registry/orgs.go:183-257 | Setting or removing a member commits exactly if an accepted owner is left, and changes that row only |
| `Roles.CollaboratorChangesCommit` | internal/registry/maintain.go:303-369 | Likewise a collaborator, for whom modules of organizations need no owner of their own |
| `Roles.InvitationsEnd` | internal/registry/invitations.go:80-114 | A pending invitation is accepted or dropped; anything else changes nothing |
| `Roles.FirstPublish` | internal/registry/registry.go:296-315 | The first publish of a path makes the module its namespace's, and gives its publisher exactly the role the rules say |
| `Roles.FirstPublisherMaintains` | internal/registry/registry.go:296-315 | Whoever publishes a path first, under their own name or as a member of its organization, may publish it again |
| `Roles.NamesAreTaken` | internal/registry/orgs.go:42-83 | Names are taken once; an organization starts with its creator as owner |
| `Roles.TeamsGather` | internal/registry/teams.go:225-285 | Team members are members of the organization when they are checked |
| `Roles.TeamsGetRoles` | internal/registry/teams.go:287-351 | Teams get roles on their organization's modules only |
| `Roles.CheckClears` | internal/accounts/profile.go:181-203 | The check before a deletion clears exactly a user beside whom every organization they own has another accepted owner |
| `Roles.DeletionTakesRows` | internal/accounts/profile.go:205-221 | A deletion takes every row of the user and no other |
| `Roles.TeamIsDeleted` | internal/registry/teams.go:105-122 | A team that is deleted goes with its members and its roles |
| `RoleCalls.Registry.Role` | internal/registry/maintain.go:53-85 | The branches give the strongest of direct, team and organization role |
| `RoleCalls.Registry.CanPublish` | internal/registry/maintain.go:90-127 | A user may publish to an existing path exactly as one of its maintainers; to a new path beside other major versions, exactly as a maintainer of one; to any other, exactly in their own namespace or as a member of its organization |
| `RoleCalls.OnlyMajorVersionsOrphan` | internal/registry/maintain.go:101-113 | An allowed publish makes an unowned module only by way of another major version the publisher maintains |
| `RoleCalls.NoOwnerCounted` | internal/registry/orgs.go:248-257 | Counting owner rows finds none exactly when there is no accepted owner |
| `RoleCalls.LastOwnerCounted` | internal/accounts/profile.go:181-204 | Counting one owner row means this user is the last |
| `RoleCalls.Registry.CreateOrg` | internal/registry/orgs.go:42-83 | At most one transaction, after which the creator owns the new organization |
| `RoleCalls.Registry.RequireOrgOwner` | internal/registry/orgs.go:231-246 | The check before a change to an organization finds exactly its accepted owners |
| `RoleCalls.Registry.RequireModuleOwner` | internal/registry/maintain.go:284-300 | The check before a change to collaborators finds exactly those whose role is owner |
| `RoleCalls.Registry.SetOrgMember` | internal/registry/orgs.go:166-201 | Whether or not the check still holds, the transaction is rolled back without an owner left |
| `RoleCalls.Registry.RemoveOrgMember` | internal/registry/orgs.go:204-229 | The same for removing a member |
| `RoleCalls.Registry.LeaveOrg` | internal/registry/invitations.go:116-146 | Anyone but the last owner may leave |
| `RoleCalls.Registry.AcceptInvitation` | internal/registry/invitations.go:80-96 | Only a pending invitation of the caller is accepted |
| `RoleCalls.Registry.DeclineInvitation` | internal/registry/invitations.go:98-114 | Only a pending invitation of the caller is dropped |
| `RoleCalls.Registry.SetCollaborator` | internal/registry/maintain.go:284-323 | Whether or not the check still holds, a personal module keeps an owner |
| `RoleCalls.Registry.RemoveCollaborator` | internal/registry/maintain.go:325-351 | The same for removing a collaborator |
| `RoleCalls.Registry.LeaveModule` | internal/registry/invitations.go:148-178 | Giving up one's own role, if an owner remains |
| `RoleCalls.Registry.Publish` | internal/registry/registry.go:279-315 | After an allowed check, the module is created if it is new by then, and its own user becomes owner |
| `RoleCalls.Registry.CheckTeamMember` | internal/registry/teams.go:231-245 | The check before a team member is added finds exactly the organization's accepted members |
| `RoleCalls.Registry.AddTeamMember` | internal/registry/teams.go:246-259 | After both checks the team gains that user and nothing else changes |
| `RoleCalls.Registry.SetTeamModule` | internal/registry/teams.go:287-327 | A team gets a role only on its own organization's modules |
| `RoleCalls.Registry.SetMemberAccess` | internal/registry/teams.go:353-375 | After an allowed check, the access is the only thing that changes |
| `RoleCalls.Registry.CheckDeletion` | internal/accounts/profile.go:181-203 | Counting owners finds exactly the users who are no organization's only owner |
| `RoleCalls.Registry.DeleteAccount` | internal/accounts/profile.go:205-221 | After that check every row of the user goes, without another count |
| `RoleCalls.EveryStateIsSafe` | internal/registry/orgs.go:42-257 | After any calls: roles earned, maintainers listed exactly, and organizations owned unless a deletion overtook its check |
| `SecondFactor.Match` | internal/accounts/totp.go:50-67 | The result is the earliest step within one of now, after the last one, whose code this is; zero when there is none |
| `SecondFactor.Use` | internal/accounts/security.go:388-422 | An accepted step is near now, matches, and is later than the stored one; an accepted recovery code was unused |
| `SecondFactor.AcceptedIff` | internal/accounts/security.go:388-422 | Exactly what a check accepts: with the app on the earliest near step its code fits, if that is later than the row's; with no such step, or without the app but with passkeys, an unused recovery code, which is used up; and what changes |
| `SecondFactor.ConfirmedIff` | internal/accounts/security.go:305-347 | Exactly which confirmations commit, and what they write |
| `SecondFactor.RowsAfter` | internal/accounts/security.go:278-377 | What starting a setup, disabling and replacing recovery codes write |
| `SecondFactor.SpacesAreDropped` | internal/accounts/totp.go:50-54 | Spaces in a typed code are dropped wherever they are |
| `Text.TrimCuts` | internal/accounts/totp.go:51-51 | White space is cut off both ends, all of it and nothing else |
| `SecondFactor.LastStepOnlyGrows` | internal/accounts/security.go:403-412 | Between confirmations and disablings the stored step never goes back |
| `SecondFactor.AcceptedStepsRise` | internal/accounts/security.go:386-422 | In any interleaving, a step accepted after another, with no confirmation or disabling in between, is later: no code works twice (section 5.2 of RFC 6238) |
| `SecondFactor.StepsRiseIff` | internal/accounts/security.go:303-422 | From one disabling to the next, all confirmed and accepted steps rise exactly when every confirmation that commits finds an earlier step in the row than its own |
| `SecondFactor.StepsRiseWithoutOverlap` | internal/accounts/security.go:303-422 | They always do in runs whose requests find the app on or off as they read it, so in all runs without overlaps |
| `SecondFactor.TwoConfirmationsRepeatAStep` | internal/accounts/security.go:305-327 | For every secret with six-digit codes at two steps in a row: two overlapping confirmations let the second step be accepted twice |
| `SecondFactor.StaleCheckOutlivesDisabling` | internal/accounts/security.go:351-412 | A check that overlaps a disabling is accepted after it, so that one later confirmation can write an earlier step |
| `SecondFactor.RecoveryCodesWorkOnce` | internal/accounts/security.go:413-421 | In any interleaving each recovery code succeeds at most once for each time it was issued |
| `SecondFactor.IssuedBetweenUses` | internal/accounts/security.go:413-421 | Between two successes of one recovery code it was issued again |
| `SignIn.ChallengeIsCheckedAtMostFiveTimes` | internal/accounts/security.go:447-453 | In any interleaving a challenge reaches the check of a code at most five times |
| `SignIn.ChecksAreTimely` | internal/accounts/security.go:424-453 | And only within five minutes of its start |
| `SignIn.StatementsDo` | internal/accounts/security.go:424-462 | A sign-in is open for five minutes and five tries, and each try is admitted and counted in one statement |
| `SignIn.ChecksAreCounted` | internal/accounts/security.go:440-465 | The checks and the sign-ins counted above are those of the run, one by one |
| `SignIn.FailuresPerWindow` | internal/accounts/security.go:466-477 | With at most n sign-ins between counting and recording at once, no hour holds more than 9 + n recorded wrong codes |
| `SignIn.FailuresDo` | internal/accounts/security.go:466-500 | A request is let through while fewer than ten wrong codes were recorded within the hour before it, and is no longer in between once it records one or succeeds |
| `SignIn.BetweenCounts` | internal/accounts/security.go:466-472 | And so are the wrong codes of an hour |
| `SignIn.TenFailuresAnHour` | internal/accounts/security.go:466-477 | So one at a time, at most ten |
| `SignIn.BoundIsReached` | internal/accounts/security.go:466-477 | For every n there is a run that reaches 9 + n |
| `SignIn.Service.VerifySecondFactor` | internal/accounts/security.go:386-422 | The branches do what one check does to the stored rows |
| `SignIn.Service.ConfirmTOTP` | internal/accounts/security.go:303-347 | It succeeds exactly for a secret, the app off, and a code that fits a near step, the earliest of which it records with fresh recovery codes |
| `SignIn.Service.DisableTOTP` | internal/accounts/security.go:349-377 | Disabling needs a good code, and keeps recovery codes only for passkeys |
| `SignIn.Service.CreateChallenge` | internal/accounts/security.go:424-438 | A new challenge is open for five tries and five minutes, and expired ones are gone |
| `SignIn.Service.CompleteLogin` | internal/accounts/security.go:440-501 | Counting, pausing, checking and recording, in this order, keep every hour within ten wrong codes |
| `Exchange.LeewayIsAMinute` | internal/oidc/oidc.go:117-129 | A token whose times are in order passes exactly when it is meant for the registry and right by some clock at most a minute away (sections 4.1.4 to 4.1.6 of RFC 7519); one whose times cross by over two minutes never does |
| `Exchange.PassesOneStretch` | internal/oidc/oidc.go:117-129 | It passes during one stretch of time: before it it is too early, and after it expired for good |
| `Exchange.Workflow` | internal/oidc/oidc.go:270-282 | A file name is found exactly in references to a workflow of the repository, and it is the only one |
| `Exchange.FirstLetting` | internal/registry/publishers.go:324-339 | The loop stops at the first row that lets the run through |
| `Exchange.MatchPrefersEnvironment` | internal/registry/publishers.go:310-341 | A publisher is found exactly when one matches, and one tied to the environment is preferred |
| `Exchange.MatchedIff` | internal/registry/publishers.go:310-341 | A run is matched exactly when it is of the repository, workflow and environment of some publisher, and to which of several |
| `Exchange.ApplyExchange` | internal/registry/publishers.go:347-398 | A refused exchange changes nothing; a successful one used an unrecorded token and a matching publisher of the same owner |
| `Exchange.ExchangedIff` | internal/registry/publishers.go:347-398 | Exactly which exchanges succeed: those that name workflow, token and owner, with an unrecorded token and a matching publisher pinned to no other owner |
| `Exchange.PublishersComeAndGo` | internal/registry/publishers.go:90-182 | Adding, removing and minting: exactly when they do something, and what |
| `Exchange.ReuseIsLate` | internal/registry/publishers.go:347-398 | A token exchanged twice was verified more than 3540 seconds before the second exchange commits, in whatever order the exchanges read their clocks |
| `Exchange.NoTokenTwiceIffPrompt` | internal/registry/publishers.go:347-398 | No run exchanges a token twice exactly when exchanges commit within 3540 seconds of their verification |
| `Exchange.StepKeepsOwner` | internal/registry/publishers.go:387-395 | A pinned owner changes only with the removal of its publisher |
| `Exchange.SameOwnerEveryTime` | internal/registry/publishers.go:387-395 | Until it is removed, every run a publisher lets through is of the same owner's account |
| `Exchange.LiveTokensHavePublishers` | internal/registry/publishers.go:157-182 | However exchanging, removing and minting interleave, no live token is of a removed publisher |
| `Exchange.Registry.FindMatch` | internal/registry/publishers.go:315-341 | The loop over the ordered rows finds the match |
| `Exchange.Registry.ExchangeGitHubToken` | internal/registry/publishers.go:347-398 | The transaction of the calls is the one the results above are about |
| `Exchange.Registry.RemovePublisher` | internal/registry/publishers.go:157-182 | Its tokens are revoked and its row is gone |
| `KeyCache.CacheIsLastAnswer` | internal/oidc/oidc.go:162-185 | In every run the cache is the issuer's last answer, with the time it was asked |
| `KeyCache.AsksIff` | internal/oidc/oidc.go:162-185 | A request asks exactly when the last answer does not hold the key or is an hour old, and no answer came within five minutes |
| `KeyCache.AgainIffUnanswered` | internal/oidc/oidc.go:168-180 | Within five minutes of a fetch there can be another exactly when that one was not answered |
| `KeyCache.AnswersLastFiveMinutes` | internal/oidc/oidc.go:164-185 | Once the issuer has answered it is not asked again for five minutes, whatever keys are asked for |
| `KeyCache.SilenceIsNotLimited` | internal/oidc/oidc.go:171-180 | While the issuer is silent, from the start or after answers, the cache stays as it is and every request it has no key for asks again once the last answer is five minutes old |
| `KeyCache.Verifier.Key` | internal/oidc/oidc.go:162-185 | A key is the issuer's latest, and over an hour old only if the issuer was just asked and did not answer |
| `GoMod.Parse` | internal/gomod/gomod.go:39-120 | The loop over lines computes the reading that the results below are about, errors included |
| `GoModLines.FileSays` | internal/gomod/gomod.go:39-120 | A file of written lines is read line by line, and must end outside a block and name its module |
| `GoModLines.QuietLines` | internal/gomod/gomod.go:48-56 | A comment on its own joins those above, and a blank line ends them |
| `GoModLines.ModuleSays` | internal/gomod/gomod.go:71-80 | The module line gives the path, and the notice of deprecation above or beside it |
| `GoModLines.NoticeIs` | internal/gomod/gomod.go:140-148 | The notice is what follows the first line that starts with the word, joined with the lines after it |
| `GoModLines.GoSays` | internal/gomod/gomod.go:81-85 | The go line gives the version as written |
| `GoModLines.RequireSays` | internal/gomod/gomod.go:86-99 | A requirement has its path and version, unquoted, and is indirect exactly when its comment says so |
| `GoModLines.VersionIsRetracted` | internal/gomod/gomod.go:100-109 | One version is retracted by itself, with the comment beside it or else those above it as rationale |
| `GoModLines.RangeSays` | internal/gomod/gomod.go:150-165 | A range is cut at its first comma, and refused without a closing bracket or a second version |
| `GoModLines.OtherSays` | internal/gomod/gomod.go:70-111 | Other directives say nothing |
| `GoMod.BlockIsOneLineEach` | internal/gomod/gomod.go:39-68 | A parenthesized block, with its comments and blank lines, reads as its entries with the verb on each and a blank line for each parenthesis, for every verb and every failure |
| `GoMod.EntriesNeedNoBlanks` | internal/gomod/gomod.go:39-68 | Without comments the blank lines are not needed |
| `GoMod.RewriteGoMod` | internal/bench/dataset.go:240-274 | The loops write the module line, the go line and the kept requirements |
| `GoMod.KeptOneByOne` | internal/bench/dataset.go:240-262 | Each requirement is kept, at its new path if it has one, exactly when that passes the check |
| `GoMod.PrintedReadsBack` | internal/bench/dataset.go:262-273 | What is printed reads back as the module path, the go version and the requirements in order with their marks |
| `GoMod.PrintedReadsBackIff` | internal/gomod/gomod.go:59-68 | It does so exactly when neither the path nor the go version is an opening parenthesis |
| `GoMod.RewrittenReadsBack` | internal/bench/dataset.go:244-274 | A rewritten file lists exactly the upstream's requirements that pass the check, moved |
| `GoMod.Retracted` | internal/gomod/gomod.go:122-130 | The first retraction that covers the version, if any does |
| `GoMod.RangeIsRetracted` | internal/gomod/gomod.go:150-165 | A retracted range, read from its line, covers exactly the versions between its ends |
| `Listings.NamespaceModules` | internal/registry/registry.go:669-708 | Streaming ordered rows gives each module once, in order, with the summary of all its rows |
| `Listings.RangeIsPrefix` | internal/registry/registry.go:841-850 | A range of the index from /v up to /w is exactly the strings that start with /v |
| `Listings.RangeKeepsMajors` | internal/registry/registry.go:841-862 | The range and the filter after it keep exactly the major versions of the module |
| `Listings.MajorVersions` | internal/registry/registry.go:838-869 | The list holds exactly the shown major versions, sorted |
| `Listings.MajorsByNumber` | internal/registry/registry.go:863-868 | The module itself comes first, and its major versions follow by number |

## Left out

- RoleCalls.Registry.CheckDeletion: the check of the password and of the second factor before it is not part of it.
- RoleCalls.Registry.Publish: the module and role rows only; versions and zips are in `Publishing` and `PublishCall`.
- PublishCall.Registry.Publish: the checks of the token, the version's own rules, the zip's contents and the scan are left out, and nothing is said of the audit row or the recorded requirements.
- SearchIndex.Registry.Reindex: its three statements run without other requests in between; `IndexSteps` has them apart.
- SearchIndex.Registry.Publish: the search side of a publish only, without other requests between the commit and the reindex; `IndexSteps` has them apart.
- SearchIndex.Registry.SetYanked: without other requests between the commit and the reindex; `IndexSteps` has them apart.
- SearchIndex.Registry.Deprecate: without other requests between the commit and the reindex; `IndexSteps` has them apart.
- SearchIndex.Registry.SetQuarantined: without other requests between the commit and the reindex; `IndexSteps` has them apart.
- SearchIndex.Registry.LatestVersion: its two statements, `LookUp` and `LatestListed`, run without other requests in between.
- SearchIndex.Registry.ShownVersion: for an index that agrees, as `IndexSteps` says when it does.
- Downloads.Downloads.Flush: with nothing between its statements; `FlushRuns` has them apart. One flush at a time there, as the one goroutine that flushes does; `Downloads.CountsAreHeldOrLost` lets them overlap.
- EditChains.TriangleInequality: for three given strings, that there is no room for a swap is sufficient and not necessary; `TwoLetters` has the exact condition on alphabets.
- Exchange.Registry.RemovePublisher: who may remove a publisher is not part of it.
- SignIn.Service.CompleteLogin: one account's rows; other accounts' challenges and failures are separate rows, which no statement here touches. Starting the session and the emails are left out.
- Latest.SortVersionsIsTheSort: sorting in place is modelled by the sorted sequence it ends with.
- GoMod.Parse: line numbers in error messages; string literals are unquoted by a parameter.
- Listings.NamespaceModules: the page of modules is chosen by the query before the rows are streamed; pages themselves are in `SearchTiers`.
- Leaving an organization takes a user out of its teams, and takes away the user's direct roles on its modules, by database triggers that are not part of this model: here those rows stay, which only gives more roles than the code does.
- Creating, updating and withdrawing advisory rows, trusted publishers' input forms and their limit of ten, and the provenance record: rows without an invariant of their own.
- Events of a vulnerability report that name both an introduction and a fix, or neither: the results ask for events with one of the two.
- Ranking, full-text matching and SQL text: a match is a predicate on the indexed words, and each tier is a fixed sequence.
- HTTP handlers, pages, feeds, badges and cookies, the S3 client, mail, the clients of other sites, backups and migrations: presentation and plumbing around the core.
- Cryptography and third-party parsing (argon2, HMAC, RSA, WebAuthn, zip checks, license detection, go/doc): uninterpreted or absent.
- The scanner of published sources and the search scores: they depend on unseen libraries or on floating point.

# A verified model of goss

goss validates a system against a gossfile: a set of resources (files, commands, ports, ...)
whose properties are compared with expected values. This project models the parts of goss
where the result depends on more than one function or on more than one schedule, and proves
what those parts promise.

`dafny verify dfyconfig.toml` checks everything.

## What is modelled

- **Dependencies** (`Graph.dfy`, `Schedule.dfy`). `depends-on` entries are resolved to canonical
  references and the resulting graph is searched for cycles with the three-colour depth-first search
  of `detectDependencyCycles`, a class with a mutable colour map whose roots are visited in any
  order. The reference semantics is a recursive definition, `Verdict`: SKIP when some dependency's
  verdict is not SUCCESS, otherwise FAIL or SUCCESS from the resource's own results. `Depth` is the
  length of the longest dependency chain.
- **The wave loop** (`WorkerPool.dfy`, `Waves.dfy`, `Concurrency.dfy`). `validateWithDependencies`
  is a state machine: classification of one pending item, start of a wave, each step of the feeder
  and of each worker, the end of the wait group, the "unsatisfied dependency" tail and the close of
  the output channel are separate atomic steps, and a run is any interleaving of enabled steps. The
  pending list is an arbitrary sequence, so every map iteration order is covered. `Waves.Run` is the
  same machine as an executable loop that takes an arbitrary enabled step each time.
  `Concurrency.dfy` decides which two resources can be validated at the same time in some run.
- **The other runners** (`WorkerPool.dfy`, `Runners.dfy`, `Output.dfy`, `Discovery.dfy`).
  `validateParallel` and `validateDiscovery` are runs of the same pool. `Output.dfy` has the exit
  code of the default output, `Runners.dfy` the choice of the runner and the retry loop.
  `ListOrder.dfy` shows that schedules and verdicts depend on which resources are listed and not on
  the order of the list, which is that of a map iteration; `Runners.ExitCodeIndependent` concludes
  that the exit code depends neither on that order nor on the worker count, as long as there is a
  worker.
- **Gossfile inclusion** (`Gossfiles.dfy`, `SortedStrings.dfy`). The file system is a record of
  functions (glob, read, dir, join). Configurations are structs that hold a reference to mutable
  maps, so sharing and in-place overwriting are those of the code; the per-section, per-type maps
  are one map keyed by section, type and name.
- **Patterns** (`Patterns.dfy`). The pattern syntax with its parser and escaper, and the one-pass
  scan of `have-patterns` with in-place compaction of the pattern array. Regular expressions are an
  arbitrary engine (what compiles, what matches).
- **Matcher trees** (`MatcherTrees.dfy`, `MatcherCompiler.dfy`, `MatcherObjects.dfy`). The compiler
  from gossfile values to matchers, the meaning of trees of `and`, `or`, `not` and transforms, and
  the matcher objects with the fields that `Match` leaves behind for the failure report. Leaf
  matchers and transformers are arbitrary functions.

`Validate` is an arbitrary function from a resource to its results. Clock readings, CPU counts and
the file system are parameters.

## Assumptions

- The two map writes of a worker after `Validate` (dependency_scheduler.go:211-216) are one atomic
  step. The code takes no lock there, so on a real machine the Go runtime may instead stop the
  process for concurrent map writes.
- Somebody keeps reading the output channel.

## Where the code does not do what one would expect

- The documentation says that a `depends-on` reference may be the gossfile map key. A key with a
  colon, such as `tcp:22` (`Schedule.BareKeyExample`), never resolves that way;
  `Schedule.BareKeyDesignates` states exactly when a bare key resolves.
- The documentation says that independent chains run in parallel and that only declared dependencies
  are serialized (docs/gossfile.md:1087-1088). Waves are barriers that also keep unrelated resources
  apart: two resources can be validated at the same time if and only if neither has to be skipped,
  their longest dependency chains are equally long and there are two workers
  (`Concurrency.TogetherIff`, with an input in `Concurrency.BarrierExample`).
- A matching has the type key of a mount (resource/matching.go:26, resource/mount.go:28). A list with
  one of each under the same key is validated as long as nothing has a dependency, and is an error
  as soon as something has (`Runners.SharedTypeKeyExample`).
- `validateParallel` has no lower bound on the worker count. With a configured concurrency below
  one, nothing is validated and the exit code is 0 whatever the state of the system
  (`Runners.NoWorkerExample`); `PoolRun.CompleteRunDelivers` and `Runners.RunnersAgree` state the exact
  condition. The other two runners clamp the count.
- The "unsatisfied dependency" branch is reachable on acyclic graphs, when an item is listed before a
  dependency that is skipped (`Waves.AbandonedExample`). It only ever skips items that have to be
  skipped (`Waves.AbandonedAreSkips`).
- `ValidateGomegaValue` asks for a failure report after an error too, and the report can then
  dereference a child field that was never set. `MatcherTrees.UnsetIff` states when, for every tree: the
  path of deciding children ends either at an `or` under an odd number of negations whose match ended
  in an error, or at a chain of transforms that ended in an error above a matcher whose first
  connective is an `and` in positive or an `or` in negative polarity. Three gossfile values that do
  so are `MatcherObjects.NegatedOrExample`, `MatcherObjects.MissingPathAndExample` and
  `MatcherObjects.MissingPathOrExample`.
- An empty matcher map makes the compiler index an empty list of keys (resource/gomega.go:41-45).
  `MatcherObjects.CheckValue` gives this the ending `Panicked`, and `MatcherCompiler.PanicsIff` states for
  which gossfile values it happens: an empty map, or a value whose first member that does not
  compile is such a value. The members of `gjson` come in map order, so the same gossfile can
  panic in one run and be rejected in the next (`MatcherObjects.PanicOrderExample`).
- `wasTransformed` is never reset, so the report of a matcher that is used again names every transform
  that changed its input in some match so far (`MatcherObjects.Matcher.ChainIsNamed`,
  `MatcherTrees.ReusedChainExact`, `MatcherObjects.ReportAfterReuse`). Reports of the first use are
  exact. goss compiles a matcher for each value that it checks, so `CheckValue` cannot reach a second
  use; only other callers of the matchers package can.

## Model

| member | source | states |
|---|---|---|
| `Outcomes.AllPassed` | dependency_scheduler.go:204-210 | A resource passed exactly when none of its results is a failure. |
| `DependencyGraph.TopologicalImpliesAcyclic` | dependency_scheduler.go:85-108 | A finishing order in which everything follows its dependencies excludes every cycle, given as a closed path. |
| `DependencyGraph.DepthBoundsChains` | dependency_scheduler.go:142-224 | No dependency chain from a resource is longer than its depth. |
| `DependencyGraph.DepthIsAttained` | dependency_scheduler.go:142-224 | Some dependency chain from a resource is as long as its depth. |
| `Schedule.ResolveMeaning` | dependency_scheduler.go:54-76 | Resolution yields a reference exactly when the entry designates that resource: by its full reference, or as the only resource with that key. |
| `Schedule.BareKeyDesignates` | dependency_scheduler.go:54-76 | A bare key designates its resource if and only if it has no colon and no other resource has it. |
| `Schedule.BareKeyExample` | dependency_scheduler.go:54-76 | The bare key `tcp:22` designates nothing even when it is the only resource; its `type:key` form does. |
| `Schedule.QualifiedKeyDesignates` | resource/key.go:21-24 | The entry `type:key`, as a user writes it, designates its resource for every non-empty key, colons included. |
| `Schedule.RefsTellApart` | resource/key.go:21-24 | For colon-free type keys two references are equal exactly when type key and key are. |
| `Schedule.DesignatesMeaning` | dependency_scheduler.go:54-76 | All that an entry can designate: the resource whose `type:key` it is, if its key is not empty, or the only resource whose colon-free key it is. |
| `Schedule.ResolveErrors` | dependency_scheduler.go:54-76 | The three errors: an empty part beside the first colon, a colon-free key of several resources, and otherwise nothing found. |
| `Schedule.IndexResources` | dependency_scheduler.go:21-31 | The index loop reports a duplicate exactly when two references are equal; otherwise both maps index exactly the listed resources. |
| `Schedule.ResolveOne` | dependency_scheduler.go:54-76 | A resolved entry designates its reference; an error means that the entry designates nothing. |
| `Schedule.ResolveAll` | dependency_scheduler.go:35-42 | All entries of a resource are resolved in order, or some entry designates nothing. |
| `Schedule.BuildSchedule` | dependency_scheduler.go:20-52 | Success if and only if references are distinct, every entry resolves and the graph is acyclic; each item then carries its resource and the reference `type:key`, and the schedule is the only one that fits the list; the kinds of error are told apart. |
| `Schedule.ScheduleGraph` | dependency_scheduler.go:78-83 | The graph of a schedule is closed, has the scheduled references as nodes and each item's own dependencies as edges. |
| `Schedule.CycleDetector.constructor` | dependency_scheduler.go:78-83 | The search starts white on the graph of the schedule. |
| `Schedule.CycleDetector.Visit` | dependency_scheduler.go:85-101 | A visit ends with the reference black and the black ones in topological order, or with a closed path of dependencies; nothing turns white or ceases to be black. |
| `Schedule.CycleDetector.VisitWhite` | dependency_scheduler.go:94-100 | The same for a white reference, which is grey during the visit of its dependencies; the recursion ends because ever fewer references are white. |
| `Schedule.CycleDetector.VisitDeps` | dependency_scheduler.go:95-99 | The loop ends with all dependencies black, or with a closed path. |
| `Schedule.CycleDetector.Detect` | dependency_scheduler.go:103-108 | No error if and only if the graph is acyclic, whatever the order of the roots. |
| `WorkerPool.Progress` | validate.go:208-228 | As long as a worker lives, some step of feeder or workers is enabled. |
| `WorkerPool.StepConserves` | validate.go:208-228 | Every step keeps, for each item, the number of copies unsent plus delivered. |
| `WorkerPool.StepDecreases` | validate.go:208-228 | Every step lowers the bound on the remaining steps. |
| `PoolRun.RunsExtend` | validate.go:204-236 | Every sequence of possible steps from the start is a run, so the results about runs cover every schedule. |
| `PoolRun.RunKeepsInv` | validate.go:204-236 | In every state of every run items are conserved, the output is closed only after all workers have left, and at most as many items are validated as there are workers. |
| `PoolRun.NoSendAfterClose` | validate.go:230-233 | After the output is closed nothing is sent and it stays closed. |
| `PoolRun.RunProgress` | validate.go:204-236 | No deadlock: until the output is closed some step is possible. |
| `PoolRun.RunLengthBounded` | validate.go:204-236 | Every run has at most 3 steps per item, one per worker, and 2. |
| `PoolRun.CompleteRunDelivers` | validate.go:215-233 | A complete run delivers the multiset of all items if and only if it had a worker or nothing to do; without workers it delivers nothing. |
| `PoolRun.RunAll` | validate.go:204-236 | The same for an executable run under an arbitrary scheduler, which terminates. |
| `Sequences.MapMultiset` | validate.go:224-226 | Equal multisets of items give equal multisets of results. |
| `Waves.WorkerCount` | dependency_scheduler.go:134-140 | The worker count is the smaller of the two limits when both are at least 1, and otherwise 1. |
| `Waves.ClassifyItem` | dependency_scheduler.go:151-180 | The dependency loop, with its early exit, classifies as the recursive scan of the dependencies does. |
| `Waves.ScanMeaning` | dependency_scheduler.go:154-167 | Given the invariant, skip means some dependency's verdict is not SUCCESS, blocked means some dependency has not completed, runnable means all completed with SUCCESS. |
| `Waves.VerdictMeaning` | dependency_scheduler.go:154-215 | The recursive verdict is SKIP exactly below something that did not succeed, and otherwise FAIL exactly when some own result is a failure. |
| `Waves.RunnableIsTimely` | dependency_scheduler.go:146-180 | What is classified as runnable has exactly the depth of the current wave. |
| `Waves.BlockedForGood` | dependency_scheduler.go:182-187 | When nothing is runnable, the verdict of everything blocked is SKIP. |
| `Waves.WaveComplete` | dependency_scheduler.go:197-223 | When a wave ends, a resource not to be skipped has completed if and only if its depth is at most the wave number. |
| `Waves.StepSafe` | dependency_scheduler.go:127-225 | Every step keeps the invariant: conservation, recorded statuses are verdicts, emitted groups are the expected ones, completed means delivered or being delivered, and the depth facts of the phase. |
| `Waves.Extend` | dependency_scheduler.go:127-225 | Any possible step extends a run, so the results about runs cover every schedule. |
| `Waves.RunSafe` | dependency_scheduler.go:127-225 | The invariant holds in every state of every run. |
| `Waves.DispatchSafe` | dependency_scheduler.go:146-221 | In every state of every run, whatever is queued, validated or being sent has all dependencies completed with SUCCESS, is in the wave of its longest dependency chain, and the number being validated is within the worker count. |
| `Waves.ReadsAreGuarded` | dependency_scheduler.go:155-166 | Behind the completed guard the status is recorded and is the verdict, so the zero value SUCCESS of a missing entry is never read. |
| `Waves.AbandonedAreSkips` | dependency_scheduler.go:182-187 | Whatever the "unsatisfied dependency" branch skips has a dependency whose verdict is not SUCCESS. |
| `Waves.AbandonedExample` | dependency_scheduler.go:182-187 | A run on three acyclic items that reaches this branch. |
| `Waves.Progress` | dependency_scheduler.go:127-225 | In every state of every run, no step is enabled exactly when the output has been closed: no deadlock, and no send after the close. |
| `Waves.StepShrinks` | dependency_scheduler.go:142-224 | Every step lowers a lexicographic measure whose first part is the backlog of unclassified items. |
| `Waves.RunsStop` | dependency_scheduler.go:142-224 | There is no infinite run. |
| `Waves.RunDelivers` | dependency_scheduler.go:120-228 | Every finished run has emitted exactly one group per resource: one result with status SKIP when its verdict is SKIP, and otherwise its own results, for every list order, worker count and interleaving. |
| `Waves.DeliveredGroups` | dependency_scheduler.go:171-221 | What is delivered, said of the groups themselves: one for each reference and no other, with the skip result or the own results. |
| `Waves.Run` | dependency_scheduler.go:126-225 | The same for an executable run under an arbitrary scheduler, which terminates. |
| `Concurrency.UnderWayTogether` | dependency_scheduler.go:189-221 | In every state of every run, any two items that workers hold have the same depth: waves are barriers. |
| `Concurrency.TogetherIff` | dependency_scheduler.go:120-228 | Two resources are validated at the same time in some run if and only if neither verdict is SKIP, their depths are equal and there are at least two workers. |
| `Concurrency.BarrierExample` | dependency_scheduler.go:182-221 | Two resources with no dependency chain between them, never validated at the same time whatever the list order, results and worker count. |
| `Output.CountGroup` | outputs/rspecish.go:32-59 | The counters and the failed-or-skipped list of one group. |
| `Output.CountIsNumber` | outputs/rspecish.go:43-57 | A counter is the number of results with that status. |
| `Output.NotableConcat` | outputs/rspecish.go:43-57 | The list of a group holds its failed and skipped results and nothing else, in order. |
| `Output.NotableGroupsConcat` | outputs/rspecish.go:60-62 | The summary holds those lists, in order, without the empty ones. |
| `Output.FlattenConcat` | outputs/rspecish.go:31-59 | The total is counted over all results of all groups. |
| `Output.Output` | outputs/rspecish.go:28-78 | The exit code is 1 exactly when some result is a failure; the counters and the failed-or-skipped groups are those of the whole stream. |
| `Runners.ValidateWithDependencies` | dependency_scheduler.go:120-228 | An error exactly for lists that cannot be scheduled; otherwise one group per listed resource under its `type:key`, with a single SKIP result when its verdict is SKIP and its own results otherwise, from a run with the clamped worker count. |
| `Runners.GroupsOfList` | dependency_scheduler.go:120-228 | The groups of a run, in terms of the listed resources and their verdicts. |
| `Runners.ParallelWorkers` | validate.go:215-218 | The smaller of the two limits, and none for a negative concurrency. |
| `Runners.ValidateParallel` | validate.go:204-236 | With a worker, the multiset of all resources' results; without one, nothing. |
| `Runners.AnyDependencies` | dependency_scheduler.go:111-118 | True exactly when some resource has a `depends-on` entry. |
| `Runners.DeliveredFailures` | outputs/rspecish.go:52-78 | The emitted groups contain a failure exactly when some recursive verdict is FAIL. |
| `ListOrder.GraphPermutes` | dependency_scheduler.go:20-52 | Listing the same resources in another order gives the same dependency graph. |
| `ListOrder.SchedulablePermutes` | dependency_scheduler.go:20-52 | Whether a list can be scheduled does not depend on its order. |
| `ListOrder.VerdictsAgree` | dependency_scheduler.go:142-224 | The recursive verdicts depend only on the graph and on which of its nodes pass. |
| `ListOrder.VerdictPermutes` | dependency_scheduler.go:142-224 | Every resource keeps its verdict when the list is permuted. |
| `ListOrder.ListVerdictMeaning` | dependency_scheduler.go:154-215 | The verdict of a listed resource is SKIP exactly when one of its entries designates a resource whose verdict is not SUCCESS, and otherwise FAIL exactly when some own result is a failure. |
| `ListOrder.ListEdge` | dependency_scheduler.go:35-42 | The dependencies in the graph of a list are what the entries designate. |
| `Runners.EnvFails` | dependency_scheduler.go:120-228 | Some verdict of a run is FAIL exactly when some verdict of the resource list is, so runs with different worker counts agree. |
| `Runners.DependencyAttempt` | dependency_scheduler.go:120-228 | The dependency runner and the default output: an error exactly for lists that cannot be scheduled, otherwise 1 if and only if some verdict of the list is FAIL, whatever the worker count and interleaving. |
| `Runners.ParallelAttempt` | validate.go:204-236 | The parallel runner and the default output: 1 if and only if there is a worker and some resource fails. |
| `Runners.Attempt` | validate.go:193-202 | The choice of the runner: an error exactly when there are dependencies and the list cannot be scheduled, otherwise the exit code of the chosen runner as a function of the resources and their results, and of whether there is a worker. |
| `Runners.ExitCodeIndependent` | validate.go:193-236 | For two listings of the same resources and any two worker counts of at least 1, both attempts schedule or neither does, and their exit codes are equal. |
| `Runners.RunnersAgree` | validate.go:193-236 | On a list without dependencies the exit codes of the two runners differ if and only if the parallel runner has no worker and some resource fails. |
| `Runners.NoWorkerExample` | validate.go:215-221 | With a concurrency of 0 a failing resource gives exit code 0, with 1 it gives 1. |
| `Runners.SharedTypeKeyExample` | dependency_scheduler.go:24-27 | A mount and a matching with the same key have no dependencies and are validated; but no list that begins with them can be scheduled, whatever follows. |
| `Runners.RetryLoop` | validate.go:149-171 | Whenever some attempt stops the loop, every attempt before the last one failed with time left for the sleep, and the last one decides: code 1 for an error, its own code when it passed or there is no timeout, and otherwise 3 with the time used up. The code is 0 exactly when the last attempt passed. |
| `Runners.RetryEnds` | validate.go:149-171 | If the clock always moves on, some attempt stops the loop. |
| `Runners.RetriesFit` | validate.go:160-167 | If the clock moves on by at least the sleep, the sleeps of all retries together fit into the timeout. |
| `Discovery.Entries` | discovery_config.go:35-80 | Accepted exactly when all registers are non-empty and pairwise distinct; the entries are then those of the checks in order. |
| `Discovery.Collect` | discovery_validate.go:71-74 | The map is filled in order of arrival. |
| `Discovery.AnyOrderCollects` | discovery_validate.go:44-76 | For every order of arrival the map has exactly the declared registers as keys, each with the outcome of its own check. |
| `Discovery.OrderMattersIff` | discovery_config.go:67-71 | The collected map is the same for every order of arrival if and only if messages on the same register agree. |
| `Discovery.ValidateDiscovery` | discovery_validate.go:12-77 | The whole phase under an arbitrary scheduler: its errors, and the map it returns. |
| `SortedStrings.SortedElements` | store.go:257-262 | Sorting keeps exactly the keys of the map. |
| `SortedStrings.SortedAscends` | store.go:257-262 | The keys ascend strictly, so the order does not depend on the map iteration. |
| `SortedStrings.LeqMeaning` | store.go:257-262 | The order of the keys: a prefix comes first, and otherwise the first different character decides. |
| `Gossfiles.OverlayKeys` | goss_config.go:71-146 | A key is present after a merge exactly when some file of the listing defines it. |
| `Gossfiles.OverlayLast` | goss_config.go:71-146 | Its value is that of the last file of the listing that defines it. |
| `Gossfiles.OverlayConcat` | store.go:290-294 | Merging a flattened include equals merging its files one after the other. |
| `Gossfiles.Pattern` | store.go:267-272 | The glob pattern of an include: `file` wins over `path`, an absolute one is taken as it is, and another one is joined to the directory of the includer. |
| `Gossfiles.BeforeMeaning` | store.go:254-295 | The order of include paths: a path before its extensions, and otherwise by the first difference, keys by name and matches of one glob by position. |
| `Gossfiles.Ordered` | store.go:254-295 | The listing enumerates exactly the include paths that lead to a file, in that order. |
| `Gossfiles.LastDefinitionWins` | store.go:254-295 | Every key has the value of the last file, in the order of the include paths, that defines it. |
| `Gossfiles.SomeLastDefinition` | store.go:254-295 | A key that some file defines has a last definition. |
| `Gossfiles.EarlierLoses` | store.go:264-295 | Of two definitions below different includes of one file, the one below the smaller key or the earlier match does not decide. |
| `Gossfiles.MergedKeys` | store.go:254-295 | A merge has exactly the keys that some file on an include path defines. |
| `Gossfiles.Store.Merge` | goss_config.go:71-139 | The receiver's maps are overwritten with the other's entries, whatever the iteration order and even when both are the same; nothing else changes. |
| `Gossfiles.MergeGoss` | goss_config.go:202-208 | The result shares the first argument's maps and has no gossfile entries. |
| `Gossfiles.MergeKeys` | store.go:264-296 | The loop over the sorted keys adds the listing of each include in order, or returns the first error. |
| `Gossfiles.MergeInclude` | store.go:266-283 | A skipped include adds nothing and is no error; a bad pattern and a pattern without matches are errors. |
| `Gossfiles.MergeMatches` | store.go:284-295 | The matched files are added in glob order, or the first read or merge error is returned. |
| `Gossfiles.MergeFile` | store.go:284-295 | The listing of the file's own configuration is added, or its read or merge error is returned. |
| `Gossfiles.MergeJSONData` | store.go:248-298 | The keys of the result are those that some file on an include path defines, and each has the value of its last definition: includer before includes, includes by sorted key, matches in glob order. No gossfile entries are left, the maps are new, every existing configuration is unchanged, an error is that of the listing, and it terminates on every include graph. |
| `Gossfiles.MergeTwice` | store.go:248-298 | Merging a merged configuration again succeeds with the same entries, in new maps, and leaves the first result unchanged. |
| `Gossfiles.SucceedsIffChainsShort` | store.go:249-252 | Merging succeeds if and only if every glob and read on the way succeeds and no include chain from the root has more than 49 files. |
| `Gossfiles.CyclesAreRejected` | store.go:249-252 | A reachable include cycle is always an error. |
| `Gossfiles.ErrorIsReal` | store.go:249-293 | Every error has its cause at the end of an include chain: fifty files, or a non-skipped include whose pattern is bad, matches nothing or matches an unreadable file. |
| `Gossfiles.ListedAreReached` | store.go:264-296 | Only files at the end of a chain of non-skipped includes from the root are merged. |
| `Gossfiles.ReachedAreListed` | store.go:264-296 | Every such file is merged. |
| `Gossfiles.ChainHasPath` | store.go:264-295 | Every include chain is followed by an include path of the same length. |
| `Gossfiles.PathHasChain` | store.go:264-295 | Every include path that leads to a file runs along an include chain. |
| `Gossfiles.IncludesOverrideTheRoot` | store.go:254-295 | A key that some included file defines has the value of an included file, whatever the root says. |
| `Patterns.TrimLeftDropsMarks` | matchers/have_patterns.go:161-172 | The text of a literal pattern is the string without its leading backslashes, slashes and exclamation marks, all of them and nothing else. |
| `Patterns.SplitOfPrint` | matchers/have_patterns.go:187-212 | Printing then splitting a regular expression pattern gives back negation, body and flags, for every body, and the printed form is recognised. |
| `Patterns.PrintOfSplit` | matchers/have_patterns.go:233-254 | Every recognised string reprints to itself. |
| `Patterns.NewRegexPattern` | matchers/have_patterns.go:187-222 | The constructor computes the parts of the pattern, never indexes an empty string, and fails exactly when the expression does not compile. |
| `Patterns.SliceToPatterns` | matchers/have_patterns.go:256-270 | An error exactly when some expression does not compile; otherwise the parsed patterns in order. |
| `Patterns.ScanLine` | matchers/have_patterns.go:80-94 | The in-place compaction keeps exactly the patterns that do not match the line, in order, and appends the positive matches to found. |
| `Patterns.ScanLines` | matchers/have_patterns.go:76-98 | After the scan the remaining patterns are those that match no line read, and it stopped early only when none remained. |
| `Patterns.ScanResult` | matchers/have_patterns.go:76-117 | The found list has as many entries as there are patterns exactly when every positive pattern matches some line or is empty and every inverse pattern matches none. |
| `Patterns.SubtractSlice` | matchers/have_patterns.go:279-295 | The elements of the first list that do not occur in the second. |
| `Patterns.HavePatternsMatcher.Match` | matchers/have_patterns.go:32-118 | The answer is the quantified meaning with its errors in the order of the code; a scan error is returned exactly when an over-long line is met while some pattern is unmatched; found holds the satisfied patterns with their multiplicities, and on failure found and missing together are the patterns as a multiset. |
| `Patterns.EarlyMeaning` | matchers/have_patterns.go:32-75 | The errors before any line is read, and the empty list. |
| `Patterns.NegatedLiteral` | matchers/have_patterns.go:161-172 | `!text` is accepted exactly when no line contains the text without its leading marks. |
| `Patterns.PositiveLiteral` | matchers/have_patterns.go:161-172 | Another text is accepted exactly when some line contains it without its leading marks, or when it is empty. |
| `Patterns.RegexForm` | matchers/have_patterns.go:233-254 | Exactly the strings `/body/flags`, with flags from i, m and s and an optional `!` in front, are regular expressions. |
| `Patterns.RegexMeaning` | matchers/have_patterns.go:187-222 | `/body/flags` is accepted exactly when some line matches the body compiled with the flags in front, and with `!` exactly when none does. |
| `Patterns.ListMeaning` | matchers/have_patterns.go:76-118 | A list is accepted exactly when each of its patterns is accepted alone. |
| `Patterns.ReaderToSlice` | resource/command.go:110-122 | The trimmed, escaped, non-empty lines in order. |
| `Patterns.TrimSpaceMeaning` | resource/command.go:114-115 | White space is removed at both ends and nowhere else. |
| `Patterns.CapturedNext` | resource/command.go:110-122 | Line by line: nothing for a blank line, otherwise the trimmed line with a backslash in front when it starts with `!` or `/`. |
| `Patterns.EscapedIsLiteral` | resource/command.go:103-108 | An escaped line parses as a literal that is not negated. |
| `Patterns.CapturedAreSeen` | resource/command.go:103-122 | Every captured pattern is a positive literal that occurs in the output it came from. |
| `Patterns.CaptureThenMatch` | resource/command.go:110-122 | Captured patterns are accepted on the same output, also when a scanner stops at an over-long line. |
| `MatcherTrees.DeMorgan` | matchers/and.go:19-29 | `not and` equals `or not` and `not or` equals `and not` on success, failure and error. |
| `MatcherTrees.DoubleNegation` | matchers/not.go:16-22 | Double negation is the identity exactly when the match does not return success together with an error. |
| `MatcherTrees.DoubleNegationNormal` | matchers/not.go:16-22 | It is the identity on all trees when leaves answer false with an error. |
| `MatcherTrees.AndSucceeds` | matchers/and.go:19-29 | A conjunction passes exactly when all members do. |
| `MatcherTrees.OrSucceeds` | matchers/or.go:20-33 | A disjunction passes exactly when some member passes and all before it fail without an error. |
| `MatcherTrees.ErrorFreeIsExplained` | matchers/or.go:20-46 | After an error-free match the report never reaches an unset child field, and the blamed matcher did answer on the reported value as the report claims. |
| `MatcherTrees.ExplainedBy` | matchers/and.go:31-41 | What is blamed in each case: the leaf, the whole conjunction or disjunction, or what the deciding member blames. |
| `MatcherTrees.EvalChain` | matchers/with_safe_transform.go:29-41 | A chain of transforms matches as its base does on the composed value, or ends in the transform's error. |
| `MatcherTrees.TransformReportsComposition` | matchers/with_safe_transform.go:43-77 | After an error-free match a transform reports what its base reports on the composition of the transforms applied to the actual value, with the changing transforms and the actual value beside it. |
| `MatcherTrees.BlankUnset` | matchers/with_safe_transform.go:43-77 | The report of a matcher that was never matched reaches an unset field if and only if the first connective below negations and transforms is an `and` in positive or an `or` in negative polarity. |
| `MatcherTrees.UnsetIff` | matchers/or.go:20-46 | For every tree and every outcome after which a report is asked for, it reaches an unset field if and only if the path of deciding children ends at a negated `or` whose match erred, or at a chain of transforms that erred above such a matcher. |
| `MatcherTrees.NegatedOrUnset` | matchers/or.go:43-46 | For a negated `or` that was matched and decided: if and only if its match ended in an error. |
| `MatcherTrees.TransformedAndUnset` | matchers/and.go:31-33 | For an `and` under a transform: if and only if the transform erred, or it ran and the report of the first bad member is itself unset. |
| `MatcherTrees.ChangesAreNamed` | matchers/with_safe_transform.go:29-41 | The transforms that a first match flags are those of its chain that changed their input. |
| `MatcherTrees.ReusedChainExact` | matchers/with_safe_transform.go:29-77 | The transforms named after a later match are those that changed their input in it if and only if every transform flagged before has changed its input again. |
| `MatcherObjects.NegatedOrExample` | resource/validate.go:198-211 | `not: {or: [...]}` with a leaf that errs: the report reaches an unset field. |
| `MatcherObjects.MissingPathAndExample` | resource/validate.go:198-211 | `gjson: {p: {and: [...]}}` with a path that cannot be found: the same. |
| `MatcherObjects.MissingPathOrExample` | resource/validate.go:198-211 | `gjson: {p: {not: {or: [...]}}}` with such a path: the same, though the `or` was never matched. |
| `MatcherObjects.ReportAfterReuse` | matchers/with_safe_transform.go:29-77 | A matcher used twice reports a transform that changed nothing the second time. |
| `MatcherCompiler.CompileNotAll` | resource/gomega.go:180-194 | Negating the members of a list negates the compiled members, with the same first error. |
| `MatcherCompiler.CompiledDeMorgan` | resource/gomega.go:121-148 | `not: {and: xs}` and `or` of the negated members compile to the same error or to trees that answer alike everywhere. |
| `MatcherCompiler.CompiledDoubleNegation` | resource/gomega.go:121-126 | `not: {not: x}` compiles and answers as `x` does. |
| `MatcherCompiler.PathOrderIrrelevant` | resource/gomega.go:159-173 | Neither whether a `gjson` matcher compiles nor whether it passes depends on the order of the map iteration. |
| `MatcherCompiler.CompiledPlain` | resource/gomega.go:13-39 | Texts and numbers are compared after the conversion to their type, booleans as they are; null and other values and maps of several entries are errors. |
| `MatcherCompiler.CompiledLeaf` | resource/gomega.go:46-98 | The matcher and the transform of every name with a plain argument; the argument of `have-len` is truncated to an integer. |
| `MatcherCompiler.CompiledRejects` | resource/gomega.go:46-177 | Arguments of the wrong kind are errors, and so is every other name. |
| `MatcherCompiler.CompiledOver` | resource/gomega.go:91-126 | `not`, `have-key` and `contain-element` hold their compiled argument. |
| `MatcherCompiler.CompiledOverAll` | resource/gomega.go:112-148 | `and`, `or`, `consist-of`, `contain-elements` and plain lists hold their compiled members in order. |
| `MatcherCompiler.CompiledPaths` | resource/gomega.go:159-173 | `gjson` is the conjunction of its compiled values, each under its path. |
| `MatcherCompiler.PanicsIff` | resource/gomega.go:41-45 | Compilation panics exactly on an empty map and on values whose first member that does not compile panics. |
| `MatcherObjects.PanicOrderExample` | resource/gomega.go:159-173 | `gjson: {p: {}, q: {bogus: null}}`: one map order panics, the other rejects the unknown matcher. |
| `MatcherObjects.Matcher.Match` | matchers/not.go:16-22 | The object answers as its tree means, its fields reflect the match, and each `wasTransformed` along its chain is set if it was set before or its transform changed its input now. |
| `MatcherObjects.Matcher.MatchAnd` | matchers/and.go:19-29 | The remembered child is the first that failed or erred, and nil when none did. |
| `MatcherObjects.Matcher.MatchOr` | matchers/or.go:20-33 | The remembered child is the first that succeeded, and nil otherwise, also after an error. |
| `MatcherObjects.Matcher.MatchChild` | matchers/and.go:21-26 | A child answers as its tree means, its fields reflect the match, and the later children stay unmatched. |
| `MatcherObjects.Matcher.MatchXform` | matchers/with_safe_transform.go:29-41 | The transformed value is kept; the child is matched on it only when the transform did not err. |
| `MatcherObjects.Matcher.GetTransformerChainAndMatcher` | matchers/with_safe_transform.go:58-77 | The loop finds the first matcher that is not a transform, the value of the innermost transform and the transforms that changed their input. |
| `MatcherObjects.Matcher.ReflectedChain` | matchers/with_safe_transform.go:58-77 | The chain found in the fields is the chain that the match ran. |
| `MatcherObjects.Matcher.Result` | matchers/and.go:31-41 | In every state that compilation and any matches can leave behind, the method reads the report that the fields hold, unset fields included. |
| `MatcherObjects.Matcher.TransformResult` | matchers/with_safe_transform.go:43-56 | The same for a transform, with the flagged chain and the untransformed value. |
| `MatcherObjects.Matcher.BlankReport` | matchers/with_safe_transform.go:58-77 | Before any match the fields hold the report that the tree determines for that case. |
| `MatcherObjects.Matcher.FirstReport` | matchers/or.go:36-46 | After the first match, whatever its answer, the fields hold the report that the tree determines. |
| `MatcherObjects.Matcher.LaterReport` | matchers/or.go:36-46 | After a later match without an error the report differs from that at most in the list of transforms. |
| `MatcherObjects.Matcher.ChainIsNamed` | matchers/with_safe_transform.go:58-77 | The chain that is reported names exactly the transforms flagged in some match so far. |
| `MatcherObjects.Build` | resource/gomega.go:13-178 | The compiled matcher is made of new, unshared and unmatched objects. |
| `MatcherObjects.CheckValue` | resource/validate.go:178-211 | Compile, match and report: a panic exactly for the values of `PanicsIff`, a syntax error exactly for the other values that do not compile, success exactly when the compiled tree succeeds on the value, and otherwise a failure, with the error of the match and the report of the tree. After an error-free match the report exists and blames a matcher that failed; it is missing if and only if the path of deciding children ends at an unset field. |

## Left out

- Operating-system probes, DNS, HTTP, package and service commands: `Validate` is an arbitrary function.
- Template rendering, decoding of YAML and JSON, variable files and the command line.
- The regular expression engine, the leaf matchers and the transformers themselves.
- Splitting an input into lines, and the exact length limits of the two line scanners: the model starts from the lines.
- The wording of errors and skip reasons, colours, logging, start and end times of results, and the sort option of the outputs.
- The other output formats, the HTTP server, and the generated resource lists.
- `applyDisabledTypes`: its effect on a resource is part of the arbitrary `Validate`.
- Strings are sequences of characters, not of bytes.
- Compilation of lists and of `gjson` maps is recursive, where the code appends in a loop; the order and the first error are the same.
- MatcherObjects.Matcher.LaterReport: says nothing about a later match that ended in an error; that report may come from children set by an earlier match, and goss never asks for it.
- Runners.RetryLoop: a run that no attempt ever stops has no result; `RetryEnds` gives a condition under which that cannot happen.
- PoolRun.RunAll: the buffer of the discovery channel is not modelled; a send is a step that the reader takes part in.

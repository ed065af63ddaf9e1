# Unified Runtime tooling: a verified model

A Dafny model of the parts of the Unified Runtime repository that decide something: the match-file engine that judges
test output, the statistics of the benchmark runner, the reference-counted singleton factory, the id registry and the
metadata of the specification parser, and the latency tracker. `dafny verify dfyconfig.toml` checks all of it.

| file | models |
|---|---|
| `MatchSyntax.dfy`, `MatchFile.dfy`, `MatchSwitch.dfy` | `cmake/match.py`: tags, verdicts, the loop, the change of mode |
| `MatchOrdered.dfy`, `MatchExact.dfy` | its ordered mode: alignments, and when any alignment is enough |
| `MatchUnordered.dfy`, `MatchInputOrder.dfy` | its unordered mode: pairings, and when the order of the input matters |
| `Statistics.dfy`, `Benchmarks.dfy`, `Outliers.dfy`, `ReportedDeviation.dfy` | `scripts/benchmarks/main.py` |
| `Singleton.dfy` | `source/common/ur_singleton.hpp` |
| `Registry.dfy`, `RegistryHistory.dfy` | `scripts/generate_ids.py`, and the prefix put back by `scripts/parse_specs.py` |
| `EnumMeta.dfy`, `Returns.dfy`, `Versions.dfy` | `scripts/parse_specs.py`, `scripts/version.py` |
| `Latency.dfy` | `source/common/latency_tracker.hpp` |
| `Options.dfy`, `Sequences.dfy`, `Sorting.dfy` | shared: missing values, permutations, Python's stable sort |

## Main results

**The matcher.** A run is judged by two recursive functions; the loop, with its tags, index variables and set of matched
lines, is proved to compute the same verdict within |I|·|M| + |I| + |M| + 1 iterations and with at most one change of mode.

- *Ordered mode, every file and every input* (`OrderedIsLeftmost`): a run passes if and only if there is a leftmost
  alignment, where an alignment pairs inputs with lines in order, covers every plain line, and skips inputs only where an
  IGNORE stands in the gap.
- *Ordered mode, when is any alignment enough?* (`ExactlyWhenReopening`). Not always: an OPT line may take the input of the
  plain line after it, and an IGNORE stops at the first input that fits. For every file without NONDETERMINISTIC, a run
  passes on all inputs that have an alignment if and only if no string is shared by a plain line and an OPT line of the run
  before it, and behind an IGNORE every line that can take an input is followed by another IGNORE with nothing but plain
  lines that accept everything, and optional lines, between (or some plain line accepts nothing, so that nothing can pass).
  From every violation an input is built that has an alignment and does not pass.
- *Unordered mode* (`UnorderedExactlyWhenNested`): for every file, the verdict is exact on all inputs if and only if of two
  lines sharing an accepted string the upper accepts everything the lower accepts and is required only if the lower is (or
  some required line accepts nothing at all). Both halves are proved: an exchange argument, and from every violation an
  input that can be paired but does not pass.
- *The change of mode* (`RunOfSwitchingFile`): for every file with a NONDETERMINISTIC line and every input, all input is
  judged by unordered mode if the lines in front of the tag are done with while input is left, and otherwise the run passes
  exactly if it passes the lines in front of the tag and no plain line stands behind it.
- *The order of the input* (`OrderNeverMattersExactly`): for every file, permuting the input never changes whether unordered
  mode passes if and only if of two lines sharing a string the upper accepts everything the lower accepts, required and
  optional lines mixed at will (or nothing can pass). From every violation two orders are built, one passing, one not.

**Benchmarks.** Outlier removal keeps at least half of every list, for exactly the thresholds of 0.6745 or more
(`KeepsHalfExactly`). A result far from a majority of the values is removed, except that nothing is when more than half of
them are equal, since the MAD is 0 then (`FarResultRemoved`). The scores do not depend on the unit of measurement, not even
on its sign (`UnitIndependent`), nor does steadiness, which is a comparison of squares (`SteadyExactly`), on the unit.
Neither the verdict on a round nor the `value` of any reported result depends on the order of the runs; its `stddev` may,
and does not if and only if all surviving results with that value would get the same one (`ReportedExactly`).

**Singletons.** The stored count is exact at every moment of a sequence of calls if and only if no key ever has more than
2^64 references in it (`CountsExactlyWhenBounded`). Over every interleaving of threads that release what they own, an
instance is destroyed if and only if nobody holds it, and once, as long as each new reference is one that a size_t can count
(`Safety`); with one reference more on any key, the next release destroys an instance that others hold (`OneMoreIsUnsafe`).
What becomes of a key depends on the calls on that key alone (`KeysIndependent`), and no instance is lost over any calls,
with clears among them and whatever the counts (`InstancesConserved`).

**Specification.** Ids are stable, distinct and increasing over any number of regenerations through the file; an unchanged
list reproduces the registry. But an id can go to a second name (`IdGoesToSecondName`). Over any regenerations of any
registry, gaps and returning names included, none does if and only if no list has a new name whose turn, counting up from
the highest id at hand in the order of the list, comes at an id that another name has had (`OneNameExactly`); where no
dropped name comes back, if and only if the next k ids, for k new names, were never had (`OneNameExactlyWhenUnused`).
Keeping the highest id ever handed out is enough (`OneNameExactlyWhenHighestKept`), and is exactly what makes every new id
exceed every id there has ever been (`GrowsExactlyWhenHighestKept`). The list of return codes is described entry by entry
after any requests (`WholeList`). The generated flag mask fires exactly on undeclared bits. Filtering by version keeps a
prefix for exactly those validated objects in which no unversioned item stands before one older than the default.

**Latency.** Every scope is timed by one live tracker or measured once. When no scope is open any more, what is printed under
a name, in whatever order threads end, are exactly the durations in range of the scopes started on histograms of that name
(`StartedIsPrinted`).

## Reading the code where it and its comments differ

- An IGNORE line met in unordered mode calls `print_error` with one argument too few (cmake/match.py:184), so the run ends
  with an exception and not with exit code 2. The model has one verdict for it, which is not a pass.
- A file whose NONDETERMINISTIC line is not its first is read in order up to that line before it starts over
  (cmake/match.py:177-181); `Run` does the same. A NONDETERMINISTIC line keeps its tag text as its pattern and can be
  paired in unordered mode.
- Item versions default to the object's version in validation and to the default version in filtering
  (scripts/parse_specs.py:395, 538). `PrefixStableExactly` says what follows from that.

## Model

| member | source | states |
|---|---|---|
| MatchFile.Match | cmake/match.py:121-222 | the loop over both modes returns the verdict of `Run`, in at most \|I\|·\|M\|+\|I\|+\|M\|+1 iterations, switching mode once exactly when ordered mode meets a NONDETERMINISTIC line; every index is in range and the two files never end together in unordered mode |
| MatchFile.CheckPending | cmake/match.py:156-168 | at the end of the input an ordered run passes exactly if no plain line is pending |
| MatchFile.CheckUnseen | cmake/match.py:132-143 | at the end of the input an unordered run passes exactly if every unseen line is optional, in whatever order they are visited |
| MatchUnordered.RunOfUnorderedFile | cmake/match.py:149-181 | a file with NONDETERMINISTIC at the top or behind OPT lines only, and no IGNORE, is judged by unordered mode on every input, also when the input ends before the tag is reached |
| MatchSyntax.TagsExclusive | cmake/match.py:173-182 | the tag of a line is the one it starts with; no line starts with two |
| MatchSyntax.OneLine | cmake/match.py:173-222 | for every pattern and input: a line behind an OPT tag passes on one input line exactly if the text behind the tag matches it, and on none; a line without a tag passes exactly on what it matches, and not on none; an IGNORE line passes on everything |
| MatchSyntax.OneUnorderedLine | cmake/match.py:173-207 | the same behind a NONDETERMINISTIC line, whose own text is a pattern and is tried first |
| MatchSwitch.RunOfSwitchingFile | cmake/match.py:121-222 | for every file with a NONDETERMINISTIC line and every input: unordered mode from the first input on if the lines before the tag are done with while input is left; otherwise pass exactly if the lines before the tag pass and no plain line is pending behind it |
| MatchOrdered.OrderedSound | cmake/match.py:149-222 | a run that passes in ordered mode has a strictly increasing pairing that covers every plain line and skips inputs only in a gap with an IGNORE, and it is leftmost |
| MatchOrdered.OrderedIsLeftmost | cmake/match.py:149-222 | for all files without NONDETERMINISTIC and all inputs: pass if and only if a leftmost alignment exists |
| MatchExact.OrderedExact | cmake/match.py:149-222 | on a given input: pass if and only if any alignment exists, when no input line is accepted by an OPT line and the plain line of its run, and behind an IGNORE a line has a choice of inputs (an OPT line one, a plain line two) only if another IGNORE follows before any plain line that rejects an input line |
| MatchExact.ExactlyWhenReopening | cmake/match.py:149-222 | every file without NONDETERMINISTIC passes exactly the inputs that have an alignment, on all inputs, if and only if no string is accepted by a plain line and an OPT line of the run before it, and after every line behind an IGNORE that can take an input another IGNORE comes before any plain line that rejects some string; or a plain line accepts nothing |
| MatchExact.NotReopeningDefeats | cmake/match.py:216-218 | every line behind an IGNORE without such a reopening yields inputs that have an alignment and do not pass |
| MatchExact.ExactlyWhenRunsDisjoint | cmake/match.py:174-176 | for files without IGNORE the condition is only that no string is accepted by a plain line and an OPT line of the run before it, or a plain line accepts nothing |
| MatchExact.SharedStringDefeats | cmake/match.py:209-215 | such a shared string yields inputs that have an alignment and do not pass, whatever IGNORE lines the file has |
| MatchExact.IgnoreStopsAtFirst | cmake/match.py:216-218 | concrete: behind an IGNORE the first fitting input is taken although only the second leads to an alignment |
| MatchUnordered.PassGivesPairing | cmake/match.py:131-147 | an unordered run that passes has a one-to-one pairing of all inputs that covers every required line |
| MatchUnordered.IgnoreNeverPasses | cmake/match.py:182-185 | no input passes in unordered mode with an IGNORE line in the file |
| MatchUnordered.IgnoreExactly | cmake/match.py:182-207 | such a run ends in the error about the tag exactly if the lines above the first IGNORE cannot take all inputs, and fails otherwise |
| MatchUnordered.UnorderedExact | cmake/match.py:200-207 | if the lines are nested on the inputs at hand, a run passes if and only if a pairing exists |
| MatchUnordered.ClassesExact | cmake/match.py:200-207 | the same for lines that fall into classes accepting the same inputs, all required or all optional |
| MatchUnordered.GreedyMissesPairing | cmake/match.py:200-207 | concrete: lines `.*`, `a` and inputs a, b can be paired and do not pass |
| MatchUnordered.NotNestedDefeats | cmake/match.py:200-207 | every pair of lines that is not nested, in a file that can be satisfied, yields inputs that can be paired and do not pass |
| MatchUnordered.UnorderedExactlyWhenNested | cmake/match.py:131-207 | for every file, unordered mode passes exactly the inputs that can be paired, on all inputs, if and only if its lines are nested or some required line accepts nothing |
| MatchUnordered.ExactlyWhenNested | cmake/match.py:121-222 | the same of the whole program, for a file with NONDETERMINISTIC at the top or behind OPT lines only, and no IGNORE |
| MatchInputOrder.OrderIndependent | cmake/match.py:128-147 | permuting the inputs does not change whether the run passes, if of two lines sharing one of them the upper accepts all of them that the lower accepts |
| MatchInputOrder.OrderNeverMattersExactly | cmake/match.py:128-147 | for every file, no permutation of any inputs changes whether unordered mode passes, if and only if of two lines sharing a string the upper accepts all that the lower accepts, or some required line accepts nothing |
| MatchInputOrder.OrderMatters | cmake/match.py:200-207 | every violation, in a file that can be satisfied, yields two orders of the same inputs of which one passes and one does not |
| MatchInputOrder.RunIgnoresOrderExactly | cmake/match.py:121-222 | the characterisation for the whole program, for a file with NONDETERMINISTIC at the top or behind OPT lines only, and no IGNORE |
| Sorting.SortSorts | scripts/benchmarks/main.py:106 | sorting by a key gives a sorted permutation |
| Sorting.SortStable | scripts/benchmarks/main.py:106 | elements with equal keys keep their order |
| Statistics.HalfBelowMedian | scripts/benchmarks/main.py:55-56 | at least half of a list of distances does not exceed its median, which is not negative |
| Statistics.KeepsHalfExactly | scripts/benchmarks/main.py:54-71 | a threshold keeps at least half of every non-empty list if and only if it is 0.6745 or more |
| Statistics.MedianOfMap | scripts/benchmarks/main.py:55 | the median moves with every monotone map that keeps midpoints, increasing or decreasing |
| Statistics.MadOfAffine | scripts/benchmarks/main.py:56 | the MAD of a·v+b is \|a\| times the MAD |
| Statistics.UnitIndependent | scripts/benchmarks/main.py:54-71 | the size of every modified z-score is the same for v and a·v+b, for all a other than 0 |
| Benchmarks.FallbackNeverTaken | scripts/benchmarks/main.py:69-76 | the filtered list is never empty and has at least half of the results |
| Outliers.SurvivesExactly | scripts/benchmarks/main.py:54-76 | a list no longer than the number of iterations is left alone; of a longer one a result survives exactly if the MAD is 0 or 0.6745 times its distance from the median is at most 3.5 times the MAD |
| Outliers.MadZeroExactly | scripts/benchmarks/main.py:56-58 | the MAD is 0 if and only if more than half of the values are equal |
| Outliers.FarResultRemoved | scripts/benchmarks/main.py:54-76 | with more than half of the values within d of some c, a result further from c than d by more than 7/0.6745 times d is removed if and only if no value makes up more than half of the list |
| Benchmarks.RemoveOutliers | scripts/benchmarks/main.py:61-78 | per label, in order, the results within the threshold, lists no longer than the number of iterations untouched |
| Benchmarks.ProcessLabel | scripts/benchmarks/main.py:88-114 | steadiness of one label, its median result, its list sorted, and which standard deviation is overwritten |
| Benchmarks.ProcessResults | scripts/benchmarks/main.py:80-116 | the round is valid exactly if every label is steady; the median result of every label that has one, in order; every standard deviation after all labels, also of results listed twice; the caller's lists, sorted where no outliers were looked for |
| Benchmarks.SteadyExactly | scripts/benchmarks/main.py:96-104 | for any number of results: steady exactly if there are less than two, or the limit is not negative and the squared distances from the mean sum up to at most one less than their number times the limit squared |
| Benchmarks.ReportedPerLabel | scripts/benchmarks/main.py:87-114 | one result is reported for each label that has any, in the order of the labels, and it is that label's |
| Benchmarks.LabelsSpec | scripts/benchmarks/main.py:87-93 | the labels meant there are exactly those with a result, in increasing order |
| Benchmarks.CallerLists | scripts/benchmarks/main.py:64-66 | the caller's lists keep their results; those no longer than the number of iterations end up sorted, the others untouched |
| Benchmarks.StdDevOfOwnLabel | scripts/benchmarks/main.py:110-112 | where no result is listed under two labels, a standard deviation is set only on a label's median result that had none, by that label |
| Benchmarks.ChosenValue | scripts/benchmarks/main.py:106-108 | the value reported is the middle one of the sorted values: the median of an odd number of values, and never below the median |
| Benchmarks.StdDevOfTwo | scripts/benchmarks/main.py:97-98 | concrete: mean and sample standard deviation of two values, the latter dividing by one less than their number |
| Benchmarks.MeanIsLeastSquares | scripts/benchmarks/main.py:97-98 | for every list: the squares are summed from the mean, where the sum is least; any other point adds its squared distance from the mean for every value |
| Benchmarks.StdDevOfAffine | scripts/benchmarks/main.py:97-98 | for every list: the standard deviation of a·v+b is \|a\| times that of v |
| Benchmarks.SteadyInAnyUnit | scripts/benchmarks/main.py:97-104 | whether a label is steady does not depend on the unit of measurement |
| Benchmarks.WithoutOutliersOfPermutation | scripts/benchmarks/main.py:69-76 | permuted lists keep the same results |
| Benchmarks.LabelOrderIndependent | scripts/benchmarks/main.py:88-114 | permuting a label's results changes neither its steadiness nor the `value` reported for it |
| Benchmarks.OrderIndependent | scripts/benchmarks/main.py:80-116 | permuting every list changes neither the validity of the round nor the `value` of any reported result |
| ReportedDeviation.ReportedExactly | scripts/benchmarks/main.py:106-112 | the `stddev` reported for a label is the same for every order of its runs if and only if all surviving results with the reported value would get the same one |
| ReportedDeviation.AnyMayBeChosen | scripts/benchmarks/main.py:106-108 | each surviving result with the reported value is the median result in some order of the runs |
| ReportedDeviation.ReportedDependsOnOrder | scripts/benchmarks/main.py:106-112 | concrete: of two runs with one value, one with a `stddev` and one without, the later one is reported |
| Singleton.Factory.GetInstance | source/common/ur_singleton.hpp:58-75 | no instance for key 0; a new instance counted 0 for a new key, one more reference otherwise; the instance of the key is returned |
| Singleton.Factory.RetainKey | source/common/ur_singleton.hpp:77-82 | one more reference, of a key that is present |
| Singleton.Factory.ReleaseKey | source/common/ur_singleton.hpp:86-95 | the last reference removes the entry and destroys the instance, another only counts down |
| Singleton.Factory.Clear | source/common/ur_singleton.hpp:97-100 | every instance is destroyed and nothing is left |
| Singleton.InstancesSpec | source/common/ur_singleton.hpp:99 | clearing destroys exactly the instances in the map |
| Singleton.InstancesConserved | source/common/ur_singleton.hpp:58-100 | after any legal calls, clears among them, each instance made is in the map or destroyed, not both, none twice, and after a clear all are destroyed |
| Singleton.CountingInvariant | source/common/ur_singleton.hpp:58-100 | after any legal calls within 2^64 references a key is present exactly while it is referenced, its count is references minus one, and key 0 is never present |
| Singleton.CountsExactlyWhenBounded | source/common/ur_singleton.hpp:58-100 | for all legal calls: this holds at every moment if and only if no key ever has more than 2^64 references |
| Singleton.KeysIndependent | source/common/ur_singleton.hpp:58-100 | over all legal calls, whether a key is present and its count depend on the calls on that key and the clears alone |
| Singleton.OtherKeysUntouched | source/common/ur_singleton.hpp:58-95 | one call on one key leaves the entries of all others, instance and count, alone |
| Singleton.WrappedCountDestroysEarly | source/common/ur_singleton.hpp:72 | with 2^64 + 1 references one release destroys the instance under the others |
| Singleton.Safety | source/common/ur_singleton.hpp:58-95 | in every interleaving whose new references a size_t can count, no assertion fires, an instance is destroyed if and only if no thread holds it, and only once, and references have the same key exactly if they have the same pointer |
| Singleton.OneMoreIsUnsafe | source/common/ur_singleton.hpp:72-95 | that bound is tight in every reachable world: with one reference more on any key, the next release of the key destroys an instance that others hold |
| Singleton.DestroyedAtLastRelease | source/common/ur_singleton.hpp:86-95 | only the release of the last reference destroys anything, and it destroys that instance |
| Registry.EnumType.GenerateFunctionType | scripts/generate_ids.py:47-69 | the loop with its running maximum writes the sorted assignment, and returns it without the prefix; an empty enumeration raises |
| Registry.EnumType.GenerateStructureType | scripts/generate_ids.py:72-107 | the same for extended structures, experimental ones left out, the first of equal names counting; with distinct names the same regeneration |
| Registry.GenerateSpec | scripts/generate_ids.py:47-66 | a regeneration has exactly the entries asked for, keeps old ids, gives new ones above every old id, in strictly increasing order |
| Registry.PrefixRoundTrip | scripts/generate_ids.py:40-44 | stripping the prefix and putting it back (scripts/parse_specs.py:42) undo each other |
| Registry.AlwaysDistinct | scripts/generate_ids.py:47-69 | names and ids are distinct and ids increasing after any number of regenerations |
| Registry.NewIdsAbove | scripts/generate_ids.py:50-58 | a new id exceeds every id of the registry that its regeneration started from |
| Registry.NewIdsConsecutive | scripts/generate_ids.py:56-58 | the ids of new entries are the highest id plus one, plus two and so on, in the order of the list |
| Registry.IdsStable | scripts/generate_ids.py:47-69 | a name that is asked for in every list keeps its id over any number of regenerations |
| Registry.UnchangedListIsIdentity | scripts/generate_ids.py:40-69 | regenerating through the file for the same list reproduces names, descriptions, ids and order |
| Registry.StructItemsSpec | scripts/generate_ids.py:79-92 | the structures that get an enumerator are exactly those whose names do not start with `$x_exp_`, in their order, each with its name as description |
| Registry.LastCounts | scripts/generate_ids.py:49 | of entries with one name the last counts in the dictionary |
| Registry.FirstCounts | scripts/generate_ids.py:86-100 | of entries with one name the first is matched |
| Registry.FirstMatchIsDict | scripts/generate_ids.py:86 | while names are distinct the first match of one generator is the dictionary entry of the other |
| RegistryHistory.GrowsExactlyWhenHighestKept | scripts/generate_ids.py:47-69 | over any regenerations, every new id is above every id there has ever been if and only if the highest id ever handed out is still registered whenever a list has a new name |
| RegistryHistory.OneNameExactly | scripts/generate_ids.py:47-69 | over any regenerations of any registry, no id ever goes to a second name if and only if no list has a new name whose turn, counting up from the highest id at hand, comes at an id that another name has had |
| RegistryHistory.OneNameExactlyWhenUnused | scripts/generate_ids.py:50-58 | it is enough that none of the next k ids, k being the number of new names, was ever had; and where no dropped name comes back, that is exactly it |
| RegistryHistory.OneNameExactlyWhenHighestKept | scripts/generate_ids.py:50-58 | it is enough that the highest id ever had is still registered whenever a list has a new name; that is exactly it where, besides, ids start without gaps |
| RegistryHistory.TakenGivesTwoNames | scripts/generate_ids.py:50-58 | any new name whose turn comes at an id that another name has had gets that id |
| RegistryHistory.IdGoesToSecondName | scripts/generate_ids.py:47-69 | concrete: B with id 2 is dropped, C is added and gets id 2 |
| EnumMeta.ValidateEtors | scripts/parse_specs.py:219-250 | accepts exactly enumerations whose values are bits if and only if they are flags, and below 0x7fffffff |
| EnumMeta.ValidExactly | scripts/parse_specs.py:242-250 | of enumerations written in numbers those with every number below 0x7fffffff are valid, and of flags those with bits 0 to 30 |
| EnumMeta.WrittenValues | scripts/parse_specs.py:75-86 | values are the numbers written, decimal, hexadecimal, as a bit or as a version; a missing one is one more than the value before it |
| EnumMeta.GreatestNumber | scripts/parse_specs.py:624-639 | for an enumeration written in numbers GenerateMeta finds the name of the first enumerator with the greatest number |
| EnumMeta.VersionsEncodeInOrder | scripts/parse_specs.py:77-78 | an encoded version compares as the version does (scripts/version.py:33-38) with all versions whose minor number is below 2^16, if and only if its own is |
| EnumMeta.GenerateMeta | scripts/parse_specs.py:619-639 | for flags of any width the complemented 32-bit mask, absent when there is no enumerator, and twice the highest value minus one; for others the name of the first highest enumerator, or an exception when no value is above -1 |
| EnumMeta.FlagCheckExact | scripts/parse_specs.py:782-783 | mask AND value is not zero if and only if the value has a bit below 32 that no enumerator declares |
| EnumMeta.ValidFlags | scripts/parse_specs.py:243-250 | validated flags use bits 0 to 30, so that the check rejects every value with bit 31 |
| EnumMeta.PlainCheckExact | scripts/parse_specs.py:784-785 | the check against the value of the name found by GenerateMeta rejects exactly values above every enumerator, names being distinct |
| Returns.ReturnList.AppendValue | scripts/parse_specs.py:755-760 | finds the first entry of the key that has conditions, or adds one, and adds the condition unless it is there |
| Returns.ExactlyRequested | scripts/parse_specs.py:787-821 | after any requests each key has at most one entry with conditions, and it holds the requested conditions, each once, in order of first request |
| Returns.RequestedSpec | scripts/parse_specs.py:787-821 | those conditions are without repetition and are exactly the non-empty ones requested for the key |
| Returns.WholeList | scripts/parse_specs.py:745-821 | after any requests: the default entries, then in order one entry for each request that comes before any condition for its key, empty if it has none itself and otherwise with all conditions asked for under the key |
| Returns.EntriesPerKey | scripts/parse_specs.py:745-821 | a key has one entry if it is a default, and one more for each request up to the first with a condition |
| Versions.Validate | scripts/parse_specs.py:350-398 | accepts exactly objects whose versions never decrease, from the object's own on |
| Versions.FilterVersion | scripts/parse_specs.py:509-550 | drops an object that is too new, and otherwise its items that are |
| Versions.FilterKeeps | scripts/parse_specs.py:509-550 | in numbers: an object and its items survive exactly if major and minor number are not above the limit's, 0.12 being the version of what has none |
| Versions.PrefixStableExactly | scripts/parse_specs.py:536-548 | for a validated object every filter keeps a prefix if and only if no unversioned item stands before an item older than the default version |
| Versions.ValidYetNotStable | scripts/parse_specs.py:536-548 | concrete: a validated object of version 0.6 whose first item is dropped at 0.7 while its second is kept |
| Versions.UnversionedObject | scripts/parse_specs.py:308-341 | a validated object without a version of its own keeps prefixes, and a smaller version a prefix of what a greater one keeps |
| Versions.FilterTwice | scripts/parse_specs.py:509-550 | filtering twice keeps the same items as filtering once at the smaller version |
| Latency.LatencyHistogram.TrackValue | source/common/latency_tracker.hpp:163-165 | a value in range is added once |
| Latency.LatencyHistogram.Destroy | source/common/latency_tracker.hpp:150-161 | a histogram with data is published, one without is not |
| Latency.LatencyTracker.Destroy | source/common/latency_tracker.hpp:182-190 | a tracker with a histogram adds end minus begin to it if that is from 0 to 10^11; it is the measurement that the machine of ScopesConserved counts |
| Latency.LatencyTracker.MoveAssign | source/common/latency_tracker.hpp:200-206 | does to the two trackers what a step of the machine of ScopesConserved does: the old scope is measured, the other's taken over and the other left empty; self-assignment does nothing |
| Latency.LatencyPrinter.PublishLatency | source/common/latency_tracker.hpp:77-83 | a new name is entered, a known one added up |
| Latency.ScopesConserved | source/common/latency_tracker.hpp:173-211 | over any constructions, moves, assignments and destructions, for scopes of any kind (on one histogram, begun at one time): those of live trackers plus those measured are as many as were started |
| Latency.PublishedValues | source/common/latency_tracker.hpp:77-83 | under each name exactly the values of all its histograms are printed, and no name without values |
| Latency.PublishingOrderIndependent | source/common/latency_tracker.hpp:77-83 | what is printed does not depend on the order of publication |
| Latency.PrintedDurations | source/common/latency_tracker.hpp:150-165 | what is printed under a name, whatever the order of publication, are the in-range durations of the measurements on its histograms, as many as there are; no name is printed without one |
| Latency.StartedIsPrinted | source/common/latency_tracker.hpp:77-211 | after any constructions, moves, assignments and destructions that leave no scope open, each scope started has one measurement, and a duration from 0 to 10^11 is printed under a name as often as scopes on histograms of that name lasted from their begin to their end just that long |

## Left out

- Regular expressions: `re.fullmatch` with the translation of a match line is a parameter, any predicate on two strings.
- File reading and printing of the matcher, the filter for blank and comment lines, and the list of ignored lines, which is
  only printed.
- Floating point: the statistics are over exact real numbers, and the square root is a parameter.
- MatchUnordered.ExactlyWhenNested: a NONDETERMINISTIC line behind a plain line is reached only by inputs that ordered mode
  has accepted so far (RunOfSwitchingFile); for those the statement is UnorderedExactlyWhenNested.
- Benchmarks.StdDevOfTwo: is for two values; SteadyExactly, MeanIsLeastSquares and StdDevOfAffine are for all lists.
- Benchmarks.ProcessResults: lists are values, so that two labels do not share one list object.
- Running benchmarks, repeating unsteady rounds, histories and reports.
- Singleton.Factory.GetInstance: the constructor of the singleton is left out; an instance is named by a number.
- Registry.EnumType.GenerateStructureType: an `stype` initialiser is its prefix and a suffix; one without the prefix, which
  would lose its first characters in the file, is left out.
- Registry: reading and writing YAML, the snake-case conversion of function names, and the metadata refresh.
- EnumMeta.ValidateEtors: the checks on names, versions and typed enumerators in the same loop; the default values and names
  given by `_preprocess`; enumerations extended by experimental features, whose values are only partly checked
  (scripts/parse_specs.py:885-889).
- Versions.FilterVersion: descriptions chosen per version, enumerators and their CURRENT entry; also `_make_versions`.
- Parameter checks other than values and versions, struct ranges, `_inline_base`, hashes, references and templates.
- Latency.LatencyHistogram.TrackValue: an HDR histogram is the multiset of the values it accepted; its buckets, percentiles
  and rounding, the clock, and the case that tracking is switched off, are left out.
- The runtime's API, its loader, layers and adapters.

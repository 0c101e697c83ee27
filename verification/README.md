# Verified models of the algorithms in ns3Code

The programs under `ns3Code/` are simulations, build tools and utilities around the ns-3 network
simulator. This project models the algorithms in them in Dafny and proves what they are for:

| module | models |
|---|---|
| `Dependencies`, `Topsort` | the two dependency sorts of `topsort.py`, and the theory of depth and cycles that explains their results |
| `Rotation`, `FindCycles` | `is_rotated`, and the stack-based enumeration of all simple cycles that removes repeats with it |
| `Permutations`, `Binary`, `Euclid`, `Quantiles` | combinatorics and arithmetic of `rad_util.py` |
| `ConfigPaths`, `DistinctPaths` | the configuration-path gatherer of `print-introspected-doxygen.cc`, and when its paths are distinct |
| `PatchText`, `PatchForms`, `CheckStyle` | the patch writer and the patch parser of `check-style.py` |
| `ShellGrammar`, `ShellText`, `Shellcmd`, `PipelineRuns`, `PosixLists` | the pipeline parser and executor of `shellcmd.py`, the written form of what it accepts, what a run comes to, and how POSIX reads the same pipelines |
| `LargeTransfer` | the stream writer of `tcp-large-transfer.cc` against a socket that does as it likes |
| `Fairness` | the flow counters and Jain's index of `dctcp-example.cc` |
| `Sorting`, `Timeline` | the sorted timelines of `grid.py` with their searches and windows |
| `Lists` | facts about sequences that the others share |

Code that changes state is modelled by classes and methods with loops; every such method is tied by
its contract to a specification function or predicate, and lemmas prove what that specification means.
Dictionaries are maps whose keys are visited in an arbitrary order. Exceptions are results. Unsigned
machine words are written out. The Python is Python 2 where it matters: `/` on integers rounds down,
`hex` may end in `L`.

## Where the code departs from its comments or from what one might expect

- `topsort.py:109` and `topsort.py:227` say that every leftover element has a child. For the pairs
  (1, 2), (2, 1), (2, 3) the element 3 is left over and has none (`Topsort.LeftoverWithoutChild`). The
  comment holds exactly when every leftover element reaches a cycle
  (`Topsort.LeftoversHaveChildrenIff`). What always holds is that every leftover element has a leftover
  *parent*, and that the leftovers are exactly the elements on or below a cycle
  (`Topsort.ResidueHasParents`).
- `is_rotated` raises an IndexError for two empty lists; `Rotation.IsRotated` returns `None` then.
- `int2bin` with a width of zero checks and cuts off nothing (`Binary.Int2binZeroWidth`), and
  `binary_range(0)` is the empty list although there is one numeral of width zero.
- `Uniquefy` (`print-introspected-doxygen.cc:396`) takes its container by value, so `Gather` leaves its
  output as it was found. An aggregation that was recorded twice puts an entry into it twice
  (`DistinctPaths.AggregatedTwice`); `DistinctPaths.DistinctIff` says exactly when no entry is repeated.
- A written patch does not always read back as itself: a removed line whose text starts with `-- `
  reads as a new patch, an added line that starts with `++ ` as a file name. `PatchText.RoundTrip` gives
  the exact condition.
- The `&&` and `||` of `shellcmd.py` nest to the right, where section 2.9.3 of the POSIX Shell Command
  Language makes them associate to the left, and a `cd` is never skipped on its own or run in a subshell.
  `PosixLists.AgreesWithPosixIff` says for every pipeline that `parse` accepts whether the program does
  what POSIX says: every `cd` has a directory and is neither last nor at the end of a pipe, and there is
  no `||` or no command in front of an `&&`. `a || cd x && b` and `a | cd x && b` are two that differ
  (`PosixLists.SkippedCd`, `PosixLists.PipedCd`).
- A redirection at the very end of a command may lack its file; it is accepted and dropped
  (`ShellText.DanglingDropped`).
- A pipeline that ends in `cd`, or has a `cd` without a directory, parses but cannot always be run
  (`Shellcmd.ReturnsIff`).
- The 64-bit products of the fairness index can wrap around: for a single flow that has received 2^32
  bytes, 0/0 is computed instead of 1 (`Fairness.OverflowLosesIndex`). `Fairness.WrappedIndexIff` says
  exactly when the computed index is Jain's.
- `get_events` can lose an event when two events share a time (`Timeline.WindowLosesDuplicates`);
  `Timeline.CompleteIffStrict` gives the exact condition.
- `get_ranges_bounds` returns an empty pair of bounds when neither end of the window lies in a range,
  even if ranges lie between them; its contract says exactly when the bounds are complete and exact.

## Model

| member | source | states |
|---|---|---|
| Dependencies.DeepIffChain | ns3Code/bindings/python/topsort.py:203-224 | an element survives k generations of removal exactly when a chain of k ancestors ends in it |
| Dependencies.DepthIsLongestChain | ns3Code/bindings/python/topsort.py:203-224 | the depth of an element that is neither on nor below a cycle is the length of its longest chain of ancestors: one such chain exists and none is longer |
| Dependencies.AcyclicIff | ns3Code/bindings/python/topsort.py:108-112 | a graph is acyclic exactly when nothing lies on or below a cycle |
| Dependencies.ChildrenInOrder | ns3Code/bindings/python/topsort.py:89-90 | the child list of an element holds the children of its pairs, one for each pair and in pair order |
| Dependencies.CountIsNumber | ns3Code/bindings/python/topsort.py:86-87 | the count of an element is the number of pairs that lead to it from a set of parents |
| Topsort.Tables.constructor | ns3Code/bindings/python/topsort.py:77-90 | after all pairs, duplicates and self-pairs included, each count is the number of pairs that lead to the element, and each child list gives its children in pair order |
| Topsort.Tables.Release | ns3Code/bindings/python/topsort.py:98-106 | the tables then describe the graph without the released element; the freed elements are exactly its children that have lost their last live parent, in the order of their last mention among its children |
| Topsort.Tables.TopsortLevelsCore | ns3Code/bindings/python/topsort.py:203-232 | from tables that hold the numbers of parents: each list enumerates one level, in order, none is empty, and what stays in the tables is exactly what lies on or below a cycle |
| Topsort.Topsort | ns3Code/bindings/python/topsort.py:61-112 | succeeds exactly when the pairs are acyclic; the answer enumerates what is not on or below a cycle, every parent before its children, by non-decreasing depth; after the elements without parents each comes in the order in which its latest parent does, and those with the same latest parent in the order of their last mention; a CycleError carries the elements on or below a cycle with the number of pairs from leftover parents, and their child lists |
| Topsort.TopsortLevels | ns3Code/bindings/python/topsort.py:157-172 | succeeds exactly when the pairs are acyclic; the k-th list enumerates the elements of depth k; a CycleError carries the same residue as that of topsort |
| Topsort.SortsAgree | ns3Code/bindings/python/topsort.py:92-112 | cut where the depth changes, the answer of topsort has the element sets of the lists of topsort_levels, in the same order and number |
| Topsort.ResidueHasParents | ns3Code/bindings/python/topsort.py:226-229 | each leftover element has a positive number of leftover parents, and nothing is left exactly when the graph is acyclic |
| Topsort.LeftoversHaveChildrenIff | ns3Code/bindings/python/topsort.py:108-111 | every leftover element has a child, as the comment says, exactly when a cycle can be reached from every leftover element |
| Topsort.LeftoverWithoutChild | ns3Code/bindings/python/topsort.py:108-111 | the pairs (1, 2), (2, 1), (2, 3) leave 3 over without a child |
| Topsort.TablesDescribeGraph | ns3Code/bindings/python/topsort.py:198-201 | any child lists over the keys are those of a graph, and the tables describe it exactly when the counts are the numbers of parents, as the arguments are documented |
| Rotation.IsRotated | ns3Code/bindings/python/rad_util.py:735-775 | true exactly for rotations, including lists with repeated items; IndexError exactly for two empty lists |
| Rotation.RotationTransitive | ns3Code/bindings/python/rad_util.py:735-736 | a rotation of a rotation is one, so that repeats form classes |
| FindCycles.FindCycles | ns3Code/bindings/python/topsort.py:343-385 | the yielded lists are simple cycles, no two of them rotations of each other, and a list is a simple cycle exactly when it is a rotation of exactly one of them |
| FindCycles.Explore | ns3Code/bindings/python/topsort.py:351-385 | terminates, and then every simple cycle that can be reached from the start is listed up to rotation; every node marked as visited is reachable from an explored start |
| Permutations.Permutations | ns3Code/bindings/python/rad_util.py:293-326 | n! lists; every rearrangement of the input is listed and nothing else, each as often as the input has symmetries; without repeats when the items are distinct |
| Binary.Int2binSpec | ns3Code/bindings/python/rad_util.py:74-105 | for every width of at least one, int and long: the numeral of that width, ValueError for what does not fit, KeyError for negative numbers |
| Binary.Int2binRoundTrip | ns3Code/bindings/python/rad_util.py:74-130 | int2bin succeeds exactly below 2^n, raises ValueError exactly from 2^n on, and bin2int undoes it |
| Binary.Bin2intRoundTrip | ns3Code/bindings/python/rad_util.py:108-130 | of all strings, bin2int reads and int2bin at their length gives back exactly the non-empty numerals; signs, prefixes and blanks are read but do not come back |
| Binary.Bin2intLiteral | ns3Code/bindings/python/rad_util.py:108-130 | blanks around a numeral and a prefix 0b do not change what bin2int reads, and a minus sign negates it |
| Binary.Bin2intAccepts | ns3Code/bindings/python/rad_util.py:130 | bin2int reads exactly the strings of that form, and raises ValueError for every other |
| Binary.Int2binZeroWidth | ns3Code/bindings/python/rad_util.py:100-104 | at width zero no natural number is refused or shortened |
| Binary.Increment | ns3Code/bindings/python/rad_util.py:650-659 | the rippling carry adds one to the number held by the digits, and leaves them at the top exactly from all ones |
| Binary.BinaryRange | ns3Code/bindings/python/rad_util.py:632-660 | all 2^n numerals of width n in order, entry k equal to int2bin(k, n); the empty list for width zero |
| Binary.GrayCode | ns3Code/bindings/python/rad_util.py:612-615 | the numerals of the codes of 0 to 2^n - 1 are a rearrangement of all numerals of width n, in which neighbours, with the last and the first, differ at exactly one place |
| Binary.GrayDigits | ns3Code/bindings/python/rad_util.py:612-615 | the first digit of a code is that of the number; every other is one exactly where the number has a digit that differs from the one before |
| Binary.GrayOfNegative | ns3Code/bindings/python/rad_util.py:612-615 | a negative number has the code of its complement |
| Euclid.Gcf | ns3Code/bindings/python/rad_util.py:252-258 | for integers of any sign: terminates with the non-negative greatest common divisor, zero for two zeros, which is a combination of the two |
| Euclid.Lcm | ns3Code/bindings/python/rad_util.py:285-290 | up to sign the least common multiple, and gcf times lcm is the product, sign included |
| Euclid.ReduceFraction | ns3Code/bindings/python/rad_util.py:345-348 | a coprime pair with the same ratio and signs; ZeroDivisionError exactly for 0/0 |
| Quantiles.QuantileInterpolates | ns3Code/bindings/python/rad_util.py:358-368 | at (k + f)/(n - 1), with f between 0 and 1, the quantile is (1 - f) times the k-th sorted item and f times the next |
| Quantiles.QuantileIsAt | ns3Code/bindings/python/rad_util.py:358-368 | the p quantile is the value at the place (n - 1)p of the sorted items, with linear interpolation between them |
| Quantiles.EmptyListIff | ns3Code/bindings/python/rad_util.py:351-404 | quantile and trim raise an IndexError exactly for the empty list |
| Quantiles.QuantileMonotone | ns3Code/bindings/python/rad_util.py:351-368 | on non-empty lists the quantile does not decrease as p grows |
| Quantiles.QuantileHitsItems | ns3Code/bindings/python/rad_util.py:351-368 | the quantile at k/(n - 1) is the k-th sorted item |
| Quantiles.TrimKeepsTheMiddle | ns3Code/bindings/python/rad_util.py:371-404 | trim gives a non-empty run of the sorted items that holds every item between the quartiles and exactly the items within one and a half interquartile ranges of them |
| ConfigPaths.StaticInformation.GetCurrentPath | ns3Code/utils/print-introspected-doxygen.cc:328-338 | the elements of the current path, each after a slash |
| ConfigPaths.StaticInformation.HasAlreadyBeenProcessed | ns3Code/utils/print-introspected-doxygen.cc:349-361 | true exactly for the types on the stack |
| ConfigPaths.StaticInformation.DoGather | ns3Code/utils/print-introspected-doxygen.cc:420-503 | terminates on every finite type graph with cycles of any kind, appends what the recursion gathers, and leaves both stacks as found |
| ConfigPaths.StaticInformation.Gather | ns3Code/utils/print-introspected-doxygen.cc:411-417 | from clean stacks the output gains exactly one entry per repeat-free walk from the root, with the last type and the path of the walk, in depth-first preorder; a type is gathered with a path exactly when a route of pointers, containers, derived types and aggregations that meets no type twice ends at it and spells the path |
| ConfigPaths.StepsInOrder | ns3Code/utils/print-introspected-doxygen.cc:429-502 | the steps from a type: its pointers, but not those to any object, under their names and its containers with `/[i]` behind theirs, in attribute order; then its derived types and then the other ends of its aggregations, under their names with a dollar sign, in registry order; one step for each |
| ConfigPaths.LeadsIff | ns3Code/utils/print-introspected-doxygen.cc:429-502 | what leads from a type, by attribute, registration or aggregation, is exactly a step from it |
| ConfigPaths.GatheredListsWalks | ns3Code/utils/print-introspected-doxygen.cc:420-503 | what the recursion gathers is the preorder list of the repeat-free walks that avoid the types on the stack, each walk once |
| DistinctPaths.DistinctIff | ns3Code/utils/print-introspected-doxygen.cc:394-417 | when path elements can be told apart, no entry is gathered twice exactly when no repeat-free walk comes to a type with two equal steps to a type that it has not met |
| DistinctPaths.AggregatedTwice | ns3Code/utils/print-introspected-doxygen.cc:394-417 | with two types and their aggregation recorded twice, an entry is gathered twice |
| PatchText.RoundTrip | ns3Code/utils/check-style.py:297-414 | for all lists of patches: splitting what was written into lines and parsing them gives the same patches, chunks, positions and line kinds if and only if no text holds a newline, no kind is unset, no position is negative, no removed line starts with two dashes and a blank and no added line with two pluses and a blank |
| PatchForms.UnendedTextComesBack | ns3Code/utils/check-style.py:370-414 | clean patches are read back as well from a text that lacks its last newline |
| PatchForms.ClassifyIff | ns3Code/utils/check-style.py:371-412 | for every line, with or without a newline at its end: exactly when it names a source or a target, starts a chunk at which positions, or is a removed, added or context line with which text |
| PatchForms.ParseCollects | ns3Code/utils/check-style.py:377-414 | the parsed patches have the source names that are read, for each the last target name before the next, and the chunks that were started under it; each chunk has the chunk lines that are read before the next header |
| PatchForms.ParsesIff | ns3Code/utils/check-style.py:378-413 | a parse succeeds exactly when every target name and header has a source name before it, every chunk line a header, and every line is recognized; the first line for which that fails decides the exception |
| PatchForms.HeaderNumbers | ns3Code/utils/check-style.py:303-304 | a header holds both positions, each followed by the number of lines whose kind is that side or both |
| PatchText.ClassifyLine | ns3Code/utils/check-style.py:371-412 | a written chunk line reads as itself exactly when it is clean |
| CheckStyle.PatchChunk.SideLines | ns3Code/utils/check-style.py:265-284 | exactly the lines whose kind is the side or both, in order |
| CheckStyle.PatchChunk.Write | ns3Code/utils/check-style.py:297-306 | a header with both positions and the numbers of lines of both sides, then the lines; raises exactly when some kind is unset, and has then written the lines up to the first such |
| CheckStyle.Patch.Write | ns3Code/utils/check-style.py:359-368 | both file names and then the chunks in order; raises exactly when some kind is unset, and has then written what comes before that line |
| CheckStyle.ParsePatchset | ns3Code/utils/check-style.py:370-414 | the patch objects hold the values that the parse of the lines gives, and each exception is raised exactly when the parse meets its cause first |
| ShellText.EnvMatchIff | ns3Code/waf-tools/shellcmd.py:24 | a token is an assignment of a value to a name exactly when it is the name, an equals sign and the value without white space, and perhaps a newline |
| ShellText.EnvironmentIs | ns3Code/waf-tools/shellcmd.py:139-152 | the variables of a command are the names assigned before it, each once and with its last value |
| ShellText.AcceptedIff | ns3Code/waf-tools/shellcmd.py:121-201 | a token list is parsed to a pipeline exactly when it spells a text with the nodes of that pipeline: commands with assignments, a name, and arguments and redirections in any order, and cds, joined by operators |
| ShellText.CommandIs | ns3Code/waf-tools/shellcmd.py:137-199 | such a command is accepted exactly when no argument is an operator and each kind of redirection is given at most once; its argv is the name and the arguments in order, whatever stands between them, and each redirection sets its own field |
| ShellText.DanglingDropped | ns3Code/waf-tools/shellcmd.py:155-163 | a redirection without a file at the very end is accepted and dropped |
| ShellGrammar.AcceptedIsWellFormed | ns3Code/waf-tools/shellcmd.py:121-201 | an accepted token list gives words and operators in turn from a word to a word, a pipe exactly behind a command whose output is the pipe marker, `&&` behind every cd that is not last, no such marker on the last command |
| ShellGrammar.CanonicalTokens | ns3Code/waf-tools/shellcmd.py:121-201 | a pipeline is well-formed exactly when some token list is parsed to it, and exactly when its canonical tokens are |
| Shellcmd.Pipeline.Parse | ns3Code/waf-tools/shellcmd.py:121-201 | accepts exactly what the token machine accepts and leaves its pipeline, which is well-formed |
| Shellcmd.Pipeline.Run | ns3Code/waf-tools/shellcmd.py:214-346 | for all exit codes, returns the right-nested short-circuit value of the pipe segments and starts exactly the processes up to the short-circuit point, each in the directory and with the pipe that its place gives it |
| PipelineRuns.RunIs | ns3Code/waf-tools/shellcmd.py:214-346 | a run goes up to the first operator that stops it, the first cd that fails or the end; it has then started the commands before that position, each in the directory of the cds before it and piped exactly when the nearest command before it is followed by a pipe, and returns the status of the last |
| PipelineRuns.JoinPathLaws | ns3Code/waf-tools/shellcmd.py:228 | an absolute directory replaces the one before it, a relative one is appended with one slash, and joining is associative |
| Shellcmd.ExecPipedCommands | ns3Code/waf-tools/shellcmd.py:203-212 | the status of the last command, whichever command failed |
| Shellcmd.ReturnsIff | ns3Code/waf-tools/shellcmd.py:225-231 | a run returns a status whatever the exit codes exactly when no cd is last or without a directory |
| PosixLists.AgreesWithPosixIff | ns3Code/waf-tools/shellcmd.py:214-346 | for every accepted pipeline: status and started processes are for all exit codes those of the left-associative lists of POSIX exactly when every cd has a directory and is neither last nor behind a pipe, and the operators are all and-operators or no command stands in front of an and-operator |
| PosixLists.SkippedCd | ns3Code/waf-tools/shellcmd.py:312-346 | when a succeeds, and an or-operator, cd x, an and-operator and b follow, the program stops and POSIX runs b |
| PosixLists.PipedCd | ns3Code/waf-tools/shellcmd.py:225-245 | when a is piped into cd x, and an and-operator and b follow, the program runs b in x and with the output of a, and POSIX does neither |
| LargeTransfer.BufferKeepsPhaseIff | ns3Code/examples/tcp/tcp-large-transfer.cc:50-53 | sending a buffer over and over gives the periodic stream exactly when its size is a multiple of 26 |
| LargeTransfer.Sender.constructor | ns3Code/examples/tcp/tcp-large-transfer.cc:82-86 | the filled buffer is a piece of the stream from its beginning |
| LargeTransfer.Sender.WriteUntilBufferFull | ns3Code/examples/tcp/tcp-large-transfer.cc:198-219 | whatever the socket does: what it has accepted so far is only extended and is the stream of letters k mod 26, never more than the total, the socket is closed only and always when all is accepted, and the call ends only when closed, without space, or refused once |
| LargeTransfer.Session | ns3Code/examples/tcp/tcp-large-transfer.cc:185-219 | after any number of callbacks, with any space between them, the accepted bytes are the letters of the alphabet over and over, at most 2000000, and the socket is closed exactly when there are that many |
| Fairness.GapSign | ns3Code/examples/tcp/dctcp-example.cc:191 | n times the sum of squares is at least the square of the sum, with equality exactly for equal counters |
| Fairness.SquaresBelow | ns3Code/examples/tcp/dctcp-example.cc:191 | the sum of squares is at most the square of the sum, with equality exactly when at most one counter is not zero |
| Fairness.JainBounds | ns3Code/examples/tcp/dctcp-example.cc:177-191 | the index exists exactly when something was received, lies between 1/n and 1, is 1 exactly for equal flows and 1/n exactly for a single active flow |
| Fairness.ModerateFits | ns3Code/examples/tcp/dctcp-example.cc:182-191 | counters of at most floor((2^32 - 1)/n) keep both products below 2^64 |
| Fairness.FlowGroup.TraceSink | ns3Code/examples/tcp/dctcp-example.cc:125-141 | one counter follows what its flow has received, modulo 2^64, and the others stay |
| Fairness.WrappedIndexIff | ns3Code/examples/tcp/dctcp-example.cc:185-191 | the quotient of the wrapped products is Jain's index exactly when nothing was received, or both are carried out of the word in the same proportion and the divisor does not become zero |
| Fairness.DivisorOverflows | ns3Code/examples/tcp/dctcp-example.cc:191 | the index is wrong whenever the divisor overflows and the dividend does not |
| Fairness.OverflowLosesIndex | ns3Code/examples/tcp/dctcp-example.cc:191 | one flow with 2^32 bytes has the index 1, and 0/0 is computed |
| Fairness.FlowGroup.Fairness | ns3Code/examples/tcp/dctcp-example.cc:182-191 | sum, sum of squares and both products modulo 2^64; the result is Jain's index exactly when the carries agree, and so whenever the divisor fits |
| Sorting.SortSorts | ns3Code/utils/grid.py:246-251 | the result is ordered by the key and has the same items |
| Sorting.SortIsStable | ns3Code/utils/grid.py:246-251 | items with equal keys keep their order |
| Timeline.TimelineDataRange.Search | ns3Code/utils/grid.py:105-122 | an index of a range that contains the key; on sorted disjoint ranges -1 only if no range does |
| Timeline.TimelineDataRange.GetRangesBounds | ns3Code/utils/grid.py:153-169 | on sorted disjoint ranges: from the range that the start falls in, or the first, up to the range that the end falls in, or the last, and nothing when neither falls in one; the bounds cover every range that meets the window exactly when an end of the window hits a range or nothing meets it, and are exact exactly in the cases listed by ExactCase |
| Timeline.TimelineDataRange.GetRanges | ns3Code/utils/grid.py:136-152 | on sorted disjoint ranges the ranges between those bounds: all that meet the window if one end hits a range, exactly those if both do, and none if neither does |
| Timeline.TimelineDataRange.Sort | ns3Code/utils/grid.py:170-175 | stable order by start, with the same ranges |
| Timeline.FindSplits | ns3Code/utils/grid.py:201-218 | the search stops at an event with the key if there is one, and otherwise between the earlier and the later events |
| Timeline.WindowIsComplete | ns3Code/utils/grid.py:226-235 | with at most one event at each end of the window: exactly the events in it, and the first one after it when there is one and none lies on its end |
| Timeline.CompleteIffStrict | ns3Code/utils/grid.py:226-235 | no window of sorted events loses an event exactly when no two events share a time |
| Timeline.WindowLosesDuplicates | ns3Code/utils/grid.py:226-235 | two events at one time, of which the window holds one |
| Timeline.TimelineEvent.GetEvents | ns3Code/utils/grid.py:226-235 | on sorted events with at most one at each end of the window: the events in it, and at most the first one after it |
| Timeline.TimelineEvent.Sort | ns3Code/utils/grid.py:246-251 | events in order of time, with the same events |

## Left out

- `topsort_levels` and `find_cycles` are generators; a consumer that changes a yielded list while the generator runs is not modelled, nor is laziness.
- Topsort.Tables.TopsortLevelsCore: starts from tables whose counts are the numbers of parents, as the arguments are documented; dictionaries given by the caller whose counts contradict the child lists, where the source may raise KeyError, are not modelled.
- Euclid.Gcf: integers only; the `epsilon` argument and float arguments, for which the loop compares rounded remainders, are not modelled, nor is the unused `precision` argument of `lcm`.
- Binary.Int2binSpec: widths of at least one, and width zero separately for natural numbers; negative widths are not modelled.
- Binary.Bin2intLiteral: follows the documented form of `int(s, 2)`; blanks between sign and digits and a trailing `L`, which some Python 2 interpreters also take, are not modelled.
- Quantiles.QuantileMonotone: real numbers instead of floating point, and p between 0 and 1; the source does not check p.
- CheckStyle.PatchChunk.Write: a `PatchChunkLine` is a value, not an object shared between chunks, because the parser makes a new one for each line; `append_to_line` and `remove_trailing_whitespace_changes`, which edits lines in place by paired indexes, are left out.
- PatchText.RoundTrip: line ends other than a newline, and their translation when a file is opened, are left out.
- CheckStyle.ParsePatchset: reading the file, and the `patch`, `uncrustify` and version-control commands around it, are left out.
- ShellText.EnvMatchIff: white space means the ASCII white space characters.
- Shellcmd.Pipeline.Parse: starts from a token list; `shlex` is left out, and so is `get_abbreviated_command`.
- Shellcmd.Pipeline.Run: the processes are an oracle of exit codes; opening files, failing to start a process and the verbose mode, which reads `retval` before it is set, are left out.
- ConfigPaths.StaticInformation.DoGather: the type registry is a set of functions over a finite set of types; how aggregations get recorded (`RecordAggregationInfo`) and printed is left out.
- LargeTransfer.Sender.WriteUntilBufferFull: the socket takes at least one byte or refuses, and does not call back from inside `Send`; with a socket that takes zero bytes for ever, the loop of the source does not end.
- DistinctPaths.DistinctIff: assumes that no path element of a type begins another one up to a slash, unless the two steps are the same; names with slashes in them could make different walks look alike.
- PosixLists.AgreesWithPosixIff: a `cd` succeeds; a directory that does not exist is an error of starting the next process in the program, and of the `cd` in POSIX.
- Fairness.FlowGroup.Fairness: the quotient is a real number without rounding; the average throughput and the output format are left out. The three groups of 10, 20 and 10 flows are one class with any number of flows.
- Timeline.TimelineDataRange.Search: the midpoint is an integer division; the float detour `int((l + u) / 2)` agrees with it below 2^53. `get_bounds`, `get_events_bounds` and all drawing code are left out.
- The rest of `rad_util.py` (unit formatting, rounding, random vectors, reflection, `uniquify`, `polygon_area` and the like) is not modelled.
- The simulations themselves (nodes, channels, routing, traffic control) are configuration of a library whose sources are not part of this model.

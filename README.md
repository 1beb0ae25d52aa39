# Profiler report printer and perf_monitor configuration, modelled in Dafny

This project models two pieces of Snort 3.

**The profiler report printer** (`ProfilerSorter`, `ProfilerPrinter`). It prints one profile tree as a table:
- first a banner (the title, "worst N" or "all", and the sorter's name if there is one) and the header;
- then, depth first and parent before children, one row per printed node. At each node the children are cut to a per-level count. When a sorter is present, that many children are first partially sorted in place by the sorter's comparator;
- finally the root's own row.

The printer is modelled as the code is written: each recursive call receives the count already clamped at its parent. The report the code evidently intends, where every level receives the caller's count, is modelled beside it (see "## Findings").

The tree is a value: a node holds its children by value. Printing returns the updated tree, because the in-place partial sort reorders it. The log of printed lines is kept as a field of the `Printer` class. A row is modelled as its sequence of cells, and the stats-table text formatting is not modelled.

**The perf_monitor configuration module** (`PerfModule`). It covers:
- `set` for each option;
- the `begin` and `end` hooks of the `perf_monitor` block and of its `modules` list;
- `add_module`, which records for a module the indices of the pegs (counters) named in a whitespace-separated list, or all of its pegs when the list is empty;
- `get_config`, which hands the record out and zeroes it.

Each operation is a specification function over values. A method of the class `PerfMonModule` updates the fields step by step, and its contract proves it agrees with that function.

Files:
- `wrappers.dfy`: `Option`.
- `profiler_sorter.dfy`: views, entries, the sorter, and a selection-style partial sort. The partial sort is given as a function and as an array method, with the `std::partial_sort` guarantees proved for it.
- `profiler_printer.dfy`: the banner, the rows, the recursive printing specification and the `Printer` class.
- `perf_module.dfy`: the configuration record, `set`/`begin`/`add_module`/`end`/`get_config`, and the `PerfMonModule` class.

## Model

| member | source | states |
|---|---|---|
| ProfilerSorter.Sorter.Present | src/profiler/profiler_printer.h:44-45 | a sorter is usable exactly when its comparator is not null |
| ProfilerSorter.Sorter.Compare | src/profiler/profiler_printer.h:47-54 | comparing two entries is the comparator applied to their views; it is only called when the comparator is present, and it is the comparison the partial sort makes |
| ProfilerSorter.CompareStrict | src/profiler/profiler_printer.h:47-54 | for a strict order on views, entry comparison is irreflexive and transitive, and entries with the same view compare alike |
| ProfilerSorter.SortFrom | src/profiler/profiler_printer.h:104-105 | selecting positions i to k-1 rearranges the children into a permutation of the same length |
| ProfilerSorter.PartialSorted | src/profiler/profiler_printer.h:104-105 | the partial sort's result is a permutation of the children, of the same length |
| ProfilerSorter.MinFromMinimal | src/profiler/profiler_printer.h:104-105 | the selected position holds an element that no later element ranks before |
| ProfilerSorter.SortFromSettles | src/profiler/profiler_printer.h:104-105 | after selecting k positions, the first k are in order and nothing after them ranks before any of them |
| ProfilerSorter.PartialSortedTopK | src/profiler/profiler_printer.h:104-105 | partial sort by a strict order gives a permutation of the children whose first k are in comparator order, with no later child ranking before any of the first k |
| ProfilerSorter.SelectMin | src/profiler/profiler_printer.h:104-105 | the array scan, comparing entries through the sorter, returns the position of a minimal element of the unsorted suffix |
| ProfilerSorter.PartialSort | src/profiler/profiler_printer.h:104-105 | the in-place array partial sort with a present sorter leaves exactly the partially sorted permutation of the old contents |
| ProfilerPrinter.Decimal | src/profiler/profiler_printer.h:78-79 | the count is streamed as a non-empty string of decimal digits |
| ProfilerPrinter.DecimalRoundTrip | src/profiler/profiler_printer.h:78-79 | the decimal text streamed for the count reads back as the count |
| ProfilerPrinter.Banner | src/profiler/profiler_printer.h:75-86 | the banner starts with the title, continues with " (all" when the count is 0 and " (worst " otherwise, and ends with ")\n" |
| ProfilerPrinter.BannerShowsCount | src/profiler/profiler_printer.h:78-79 | with a non-zero count, the digits right after " (worst " are the count's decimal form |
| ProfilerPrinter.BannerNamesSorter | src/profiler/profiler_printer.h:83-86 | with a sorter present, the banner ends with ", sorted by ", the sorter's name and ")\n" |
| ProfilerPrinter.BannerWithoutSorter | src/profiler/profiler_printer.h:75-86 | without a sorter, the banner is exactly the title, the count policy and ")\n" |
| ProfilerPrinter.RowOf | src/profiler/profiler_printer.h:115-146 | a row has six cells, the fourth being the caller's metric columns for the node |
| ProfilerPrinter.RowShapes | src/profiler/profiler_printer.h:115-146 | the root's row carries "--" markers around its name and "--" instead of percentages; any other row carries the indent, rank, name and layer, the caller's columns, and its percentages of the caller and of the root |
| ProfilerPrinter.Clamp | src/profiler/profiler_printer.h:101-102 | the printed count never exceeds the number of children; it is all of them when the count is 0 or too large, and the count otherwise |
| ProfilerPrinter.Arrange | src/profiler/profiler_printer.h:104-105 | the reordering keeps the children as a permutation |
| ProfilerPrinter.Children | src/profiler/profiler_printer.h:97-113 | printing keeps the node's identity and view |
| ProfilerPrinter.UnsortedUnchanged | src/profiler/profiler_printer.h:104-105 | without a sorter, printing leaves the whole tree unchanged |
| ProfilerPrinter.ChildrenKeepViews | src/profiler/profiler_printer.h:104-111 | after printing, the children are position by position the reordered children (same identity and view) |
| ProfilerPrinter.ChildrenTopK | src/profiler/profiler_printer.h:101-111 | with a sorter, the children after printing are a permutation whose first k are in the order Compare gives, and no later child compares before any of them |
| ProfilerPrinter.RowsBelow | src/profiler/profiler_printer.h:107-111 | every row printed below a node is a non-root row at a deeper layer |
| ProfilerPrinter.LevelRows | src/profiler/profiler_printer.h:107-111 | the rows at the layer right below a node are those of its first k reordered children, ranked 1 to k in order |
| ProfilerPrinter.Report | src/profiler/profiler_printer.h:68-95 | the report print_table logs, with the clamped count passed down, opens with the banner and closes with the root's row |
| ProfilerPrinter.ReportShape | src/profiler/profiler_printer.h:68-95 | the report print_table logs opens with the banner, ends with the root's row (exactly once), and has only non-root rows in between |
| ProfilerPrinter.ReportHidesRows | src/profiler/profiler_printer.h:101-111 | with count 0, the report print_table logs for a root, one child and two grandchildren has 4 lines, where the intended report has 5 |
| ProfilerPrinter.IntendedReport | src/profiler/profiler_printer.h:68-95 | corrected behaviour (see "## Findings"): the report with each level receiving the caller's count opens with the banner and closes with the root's row |
| ProfilerPrinter.ReportPrintsAll | src/profiler/profiler_printer.h:97-113 | corrected behaviour (see "## Findings"): with count 0, the intended report has the banner plus as many rows as the tree has nodes, and the views its rows show are exactly the views of the tree's nodes, each as often as it occurs |
| ProfilerPrinter.UnclampedPrintsAll | src/profiler/profiler_printer.h:97-113 | when each call receives the caller's count, a count of 0 prints as many rows as there are nodes below the given node |
| ProfilerPrinter.UnclampedShowsAll | src/profiler/profiler_printer.h:97-113 | when each call receives the caller's count, a count of 0 prints every node below the given node as often as it occurs there: the views in the rows' metric columns, with the node's own view, are exactly the views of its subtree |
| ProfilerPrinter.ClampedCountHidesRows | src/profiler/profiler_printer.h:101-111 | when the recursion receives the clamped count, as the code does, a count of 0 prints two rows for a tree with three nodes below the root |
| ProfilerPrinter.Printer.constructor | src/profiler/profiler_printer.h:65-66 | a printer holds its sorter and has logged nothing |
| ProfilerPrinter.Printer.PrintTable | src/profiler/profiler_printer.h:68-95 | print_table logs exactly Report, the report with the clamped count passed down, and returns the root with its subtrees reordered |
| ProfilerPrinter.Printer.PrintChildren | src/profiler/profiler_printer.h:97-113 | print_children logs the rows of the printing specification with the clamped count passed down, and returns the reordered node |
| ProfilerPrinter.Printer.PrintSelected | src/profiler/profiler_printer.h:107-112 | the loop logs, for each of the first k children, its row followed by the rows of its subtree printed with count k, and replaces each child by its printed version |
| ProfilerPrinter.Printer.PrintAt | src/profiler/profiler_printer.h:108-111 | one iteration logs the row of the child at position i, ranked i + 1, then its subtree printed with the clamped count k, and stores the printed child back at position i; no other position changes |
| ProfilerPrinter.Printer.PrintRow | src/profiler/profiler_printer.h:115-146 | print_row appends exactly the row of the node |
| PerfModule.Set | src/network_inspectors/perf_monitor/perf_module.cc:105-191 | set succeeds exactly for the known option names; an unknown name changes nothing; "name" and "pegs" fill the pending module entry and every other option updates the record |
| PerfModule.SetRecord | src/network_inspectors/perf_monitor/perf_module.cc:107-177 | the record branches of set never touch the module lists |
| PerfModule.SetRecordEffects | src/network_inspectors/perf_monitor/perf_module.cc:107-177 | every field of the record is either the one the option names, set from the value, or unchanged. Flag options add their bit when true and never remove one; an option without a bit leaves the flags alone. "seconds" with 0 sets SUMMARY and clears TIME_COUNT. "max_file_size" stores the value minus ROLLOVER_THRESH. The module lists are untouched |
| PerfModule.PerfMonModule.SetValue | src/network_inspectors/perf_monitor/perf_module.cc:105-191 | the method returns set's verdict and leaves set's new state |
| PerfModule.PerfMonModule.SetOption | src/network_inspectors/perf_monitor/perf_module.cc:107-177 | the record branches of set change the record as SetRecord says and leave the pending entry alone |
| PerfModule.Begin | src/network_inspectors/perf_monitor/perf_module.cc:193-206 | opening a modules entry clears the pending name and pegs; opening the block zeroes the record and sets exactly BASE and TIME_COUNT |
| PerfModule.PerfMonModule.BeginBlock | src/network_inspectors/perf_monitor/perf_module.cc:193-206 | begin always succeeds and leaves Begin's state |
| PerfModule.Tokens | src/network_inspectors/perf_monitor/perf_module.cc:212-223 | the peg list's tokens are non-empty words without separators, and there are none exactly when the list is blank |
| PerfModule.TokensJoin | src/network_inspectors/perf_monitor/perf_module.cc:212-223 | words written with single spaces between them tokenize back to the same words, in order |
| PerfModule.FindPeg | src/network_inspectors/perf_monitor/perf_module.cc:227-235 | the lookup succeeds exactly when the name is in the table, and then gives the first index holding it |
| PerfModule.PerfMonModule.SearchPeg | src/network_inspectors/perf_monitor/perf_module.cc:227-235 | the scan finds the token exactly when the table holds it, at the index FindPeg gives |
| PerfModule.FirstMissing | src/network_inspectors/perf_monitor/perf_module.cc:223-238 | every token before the returned position is a peg name, and the one at it is not |
| PerfModule.Selected | src/network_inspectors/perf_monitor/perf_module.cc:223-238 | each selected index is the first peg carrying the matching token |
| PerfModule.AddModule | src/network_inspectors/perf_monitor/perf_module.cc:208-243 | a null module is refused with nothing changed. Corrected behaviour (see "## Findings"): a module whose peg table is null, given a peg list, is refused after being recorded, where the code reads through null |
| PerfModule.AddModuleEffects | src/network_inspectors/perf_monitor/perf_module.cc:208-243 | add_module appends the module and one index list before looking at any token, keeps the earlier entries and every other field, and succeeds exactly when every token names a peg |
| PerfModule.AddModuleIndices | src/network_inspectors/perf_monitor/perf_module.cc:223-238 | for a non-empty peg list, the recorded list gives, up to the first unknown token, the first peg index of each token; it is full length exactly on success |
| PerfModule.AddModuleAllPegs | src/network_inspectors/perf_monitor/perf_module.cc:239-241 | an empty peg list succeeds and records every peg index of the module in ascending order |
| PerfModule.AddModuleAsWritten | src/network_inspectors/perf_monitor/perf_module.cc:221-241 | as written, add_module reads through a null peg table exactly when the module has none and the list has a token |
| PerfModule.NullPegTableRead | src/network_inspectors/perf_monitor/perf_module.cc:221-241 | a module without a peg table asked for one peg is a null read as written, and a refusal in the corrected model |
| PerfModule.AddModuleKeepsValid | src/network_inspectors/perf_monitor/perf_module.cc:208-243 | add_module keeps the module and index lists parallel, with every index within its module's peg table |
| PerfModule.PerfMonModule.AddModuleTo | src/network_inspectors/perf_monitor/perf_module.cc:208-243 | the method returns the verdict of AddModule, with the corrected null-table case, and leaves its record |
| PerfModule.PerfMonModule.SelectPegs | src/network_inspectors/perf_monitor/perf_module.cc:223-238 | the token loop succeeds exactly when every token is a peg name, and collects the selected indices up to the first unknown token |
| PerfModule.PerfMonModule.EveryPeg | src/network_inspectors/perf_monitor/perf_module.cc:239-241 | the all-pegs loop collects the indices 0 to n-1 in order |
| PerfModule.Lookup | src/network_inspectors/perf_monitor/perf_module.cc:262 | the module found carries the name and is the first registered module with it; none is found exactly when no registered module has the name |
| PerfModule.AddAllFrom | src/network_inspectors/perf_monitor/perf_module.cc:251-256 | the loop over all modules only appends to the module list and keeps what was there |
| PerfModule.AddAllFromOk | src/network_inspectors/perf_monitor/perf_module.cc:251-256 | the loop over all modules succeeds exactly when none of them is null |
| PerfModule.AddAllAppends | src/network_inspectors/perf_monitor/perf_module.cc:251-256 | with no null module, the loop appends every registered module in order, each with all its pegs, and changes nothing else |
| PerfModule.AddAllKeepsValid | src/network_inspectors/perf_monitor/perf_module.cc:251-256 | the loop over all modules keeps every recorded index within its module's peg table |
| PerfModule.End | src/network_inspectors/perf_monitor/perf_module.cc:245-265 | closing the block adds all modules when none is configured and otherwise succeeds unchanged; closing a named modules entry adds the named module with the pending pegs; any other end succeeds unchanged |
| PerfModule.EndMonitorsAll | src/network_inspectors/perf_monitor/perf_module.cc:247-258 | closing the block with nothing configured monitors every registered module with all its pegs, and leaves a valid record |
| PerfModule.EndUnknownModule | src/network_inspectors/perf_monitor/perf_module.cc:261-262 | a modules entry naming an unregistered module fails and changes nothing |
| PerfModule.SessionKeepsValid | src/network_inspectors/perf_monitor/perf_module.cc:193-265 | begin yields a valid record, and set and end keep it valid |
| PerfModule.PerfMonModule.EndBlock | src/network_inspectors/perf_monitor/perf_module.cc:245-265 | the method returns end's verdict and leaves its record, with the pending entry untouched; modules are added by AddModule, with the corrected null-table case |
| PerfModule.PerfMonModule.GetConfig | src/network_inspectors/perf_monitor/perf_module.cc:267-271 | it hands out the record as it was and leaves it zeroed |
| PerfModule.PerfMonModule.constructor | src/network_inspectors/perf_monitor/perf_module.cc:98-100 | a new module starts with a zeroed record and no pending entry |

## Left out

- The stats-table formatting (field widths, separators, the header text) and the logging call: a row is its list of cells, and a logged message is one log line.
- The metric-column callback and the two percentages: these are opaque cells holding the view (and the root's stats) they are computed from.
- Building the profile tree lives in ProfilerBuilder, which is not part of this model. Tree identity (`root == cur`) is modelled as equality of a node id.
- ProfilerSorter.PartialSort: it guarantees only what `std::partial_sort` promises. The order of equal elements, and the order of the elements after the first k, differ from the library's heap-based algorithm.
- PerfModule.Tokens: it splits the peg list at whitespace. The tokenizer of `Value` is not part of this model; the contract and TokensJoin say what whitespace splitting gives, not what that tokenizer does with quotes or other separators.
- The `v.is(...)` branch chain: it is modelled as a lookup of the option name in a table of options. Values arrive already converted (`get_long` as an unbounded integer, `get_bool`, `get_string`).
- Integer widths of the record's fields: they are unbounded integers, so `max_file_size` minus ROLLOVER_THRESH cannot wrap.
- ROLLOVER_THRESH: its value comes from a header that is not part of this model, so it is a constant of the class chosen at construction. The build without LINUX_SMP is modelled, so the "max" option exists.
- The SFPERF record: only the fields this file reads or writes are modelled. `memset` to zero is a reset to the all-zero record with empty module lists.
- PerfModule.PerfMonModule.constructor: it starts from the zeroed record. The constructor in the source does not initialise the record, and the record's declaration is not part of this model; `begin` of the block zeroes it before any use.
- ModuleManager: it becomes a registry parameter, a sequence whose entries may be null. `get_module` is the first registered module with the name.
- PerfModule.PerfMonModule.AddModuleTo: the index list is built in a local sequence and stored into the record's last entry when the loop ends. The code pushes into that entry as it goes; the final record is the same.
- The module's parameter table, help text, peg names and profile statistics (`get_profile`, `get_pegs`) are constant data and are not modelled.

## Findings

| source | as written | input that shows it | evidently intended | confidence | as-written member | corrected member |
|---|---|---|---|---|---|---|
| src/profiler/profiler_printer.h:101-111 | print_children clamps `count` to the number of children and then passes the clamped value to the recursive call, so a child's children are cut to its parent's fan-out | a root with one child that has two leaf children, printed with count 0 ("all"): two rows for three nodes | count 0 prints every node; each level receives the caller's count | medium, not executed | ProfilerPrinter.ClampedCountHidesRows | ProfilerPrinter.UnclampedShowsAll |
| src/network_inspectors/perf_monitor/perf_module.cc:221-237 | the token loop indexes `peg_info` without checking it for null, although the all-pegs branch below does check it | a module whose `get_pegs()` is null, configured with pegs "flows" | a module without pegs refuses every token and is not read through null | high, not executed | PerfModule.AddModuleAsWritten | PerfModule.AddModule |

The printer methods model the first row as written, because that is what print_table does; the corrected behaviour is IntendedReport, with UnclampedPrintsAll (the row count), UnclampedShowsAll (every node shown as often as it occurs) and ReportPrintsAll proved of it. ReportHidesRows gives the four-node tree on which the two reports differ. For the second row, the rest of the model uses the corrected AddModule.

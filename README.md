# libwnck tasklist, modelled in Dafny

This project models the decision-making core of libwnck's tasklist widget:
`libwnck/tasklist.c` (the `WnckTasklist` container) and `libwnck/task.c` (one
`WnckTask` button). The GTK, X11 and Cairo calls are replaced by plain values.

- A window is a record of the attributes the tasklist asks the window manager
  about: XID, sort order, class group, flags, workspace and monitor.
- A startup sequence is an identity with an id and a WM_CLASS.
- A task is a window, a class group holding its windows, or a startup
  sequence (`Tasks.Task`).
- A button is its pressed state plus the `really_toggling` flag (`TaskOps.Button`).

The modules follow the source's structure:

| module | what it models |
|---|---|
| `Base` | C integer division, `gint`/`guint` conversion and wrap-around, the reversal that a `g_list_prepend` loop produces |
| `Geometry` | `wnck_tasklist_layout` and the cell arithmetic of `wnck_tasklist_size_allocate` |
| `Tasks` | the task records, `wnck_task_compare`, the class-group label, the stable list sort, button content thresholds |
| `Scoring` | `wnck_task_get_highest_scored`, and the order in which the grouping loops take the class groups |
| `SizeHints` | the size-hint array built by `wnck_tasklist_size_request` |
| `Allocation` | the grouping loop of `wnck_tasklist_size_allocate` |
| `Placement` | assembly and sorting of the visible tasks, grid placement, the rebuilt window list |
| `Inclusion` | `tasklist_include_window_impl`, the partition of `wnck_tasklist_update_lists`, `remove_startup_sequences_for_window` |
| `Navigation` | scroll-wheel navigation, "activate next in group", the transient-chain search |
| `TaskOps` | drag-and-drop renumbering, `wnck_dimm_icon`, the `really_toggling` guard |
| `TaskLists` | the tasklist's lists, buttons and active task as values, the invariant relating them, and the value-level steps of each state change |
| `TasklistState` | the `Tasklist` class, whose methods update its fields in place |

The state invariant (`TaskLists.Inv`, the class's `Valid()`) has three parts:

- the window list is the windows of the class groups plus the windows
  without a class;
- every window and group task has a button;
- the pressed buttons are exactly those of the active task and the active
  class group.

Every state-changing method of the class keeps the invariant. It states
its new state outright, or by the specification functions and predicates
of `TaskLists`. Lemmas then prove what the source promises about those.
The exceptions are listed under "Left out".

## Model

| member | source | states |
|---|---|---|
| Base.CDiv | libwnck/tasklist.c:644 | C division of `int`s, which truncates toward zero, agrees with Euclidean division on non-negative operands |
| Base.ToU32 | libwnck/task.c:738 | storing a `gint` sort order in a `guint` keeps non-negative values and adds 2^32 to negative ones |
| Base.FromU32 | libwnck/task.c:794 | the `gint` a `guint` becomes converts back to the same `guint` |
| Base.FromToU32 | libwnck/task.c:738-796 | converting a `gint` to `guint` and back gives the original value |
| Base.IncU32 | libwnck/task.c:762 | `guint` increment adds one, except that the maximum wraps to 0 |
| Base.SubU32 | libwnck/task.c:779 | `guint` subtraction is exact when a ≥ b and wraps by 2^32 otherwise |
| Base.ReversedSnoc | libwnck/tasklist.c:1722 | prepending in a loop: the reversal of a list extended by x starts with x |
| Base.ReversedMultiset | libwnck/tasklist.c:1714-1780 | a list built by prepending holds the same elements, with the same multiplicities |
| Geometry.Layout | libwnck/tasklist.c:627-662 | no buttons give the grid (0, 0, 0); otherwise between 1 and n rows and columns, and button width = width / cols in C division |
| Geometry.LayoutCovers | libwnck/tasklist.c:643-656 | rows = max(1, min(height / max_height, n)); rows × cols ≥ n while (cols − 1) × rows < n |
| Geometry.LayoutRowsFit | libwnck/tasklist.c:643-650 | when one button row fits the height, all rows together fit it |
| Geometry.LayoutColsMonotone | libwnck/tasklist.c:643-656 | more buttons never need fewer columns, which is why grouping can only narrow the grid |
| Geometry.CeilQuotient | libwnck/tasklist.c:653 | (n + r − 1) / r is the ceiling quotient: between 1 and n, covers n, and one less does not |
| Geometry.CellInGrid | libwnck/tasklist.c:1096-1100 | every task of a grid that holds them gets a row and a (possibly mirrored) column inside the grid, and its index can be read back from the cell |
| Geometry.CellsDistinct | libwnck/tasklist.c:1096-1100 | two different tasks never share a cell, in either text direction |
| Geometry.MirrorColInvolution | libwnck/tasklist.c:1099-1100 | right-to-left mirroring keeps columns in the grid and is its own inverse |
| Geometry.CellStartMonotone | libwnck/tasklist.c:1102-1103 | cell offsets total·k / count grow with k |
| Geometry.CellsTile | libwnck/tasklist.c:1102-1105 | the cells of a row start at 0, end at the span's end, and each begins where the previous one ends; each is an even share rounded down or up |
| Geometry.CellWidthBounds | libwnck/tasklist.c:1104-1105 | a cell's width differs from total / count by at most one |
| Geometry.CellContaining | libwnck/tasklist.c:1102-1105 | every offset of the span lies in exactly one cell |
| Tasks.Collate | libwnck/task.c:1554 | string collation is three-valued and reports equality exactly for equal strings |
| Tasks.CollateAntisymmetric | libwnck/task.c:1554 | swapping the arguments negates the collation |
| Tasks.CollateTransitive | libwnck/task.c:1554 | collation is a transitive order |
| Tasks.Compare | libwnck/task.c:1563-1609 | class groups sort before every other kind of task; two groups compare as their names collate, and tie exactly when the names are equal; two windows compare as their sort orders (below, tie, above); two startup sequences tie; a window never sorts after a startup sequence |
| Tasks.CompareAlphabetically | libwnck/task.c:1543-1560 | the result is -1, 0 or 1, and 0 exactly when the two button texts are equal; two class groups tie exactly when they have the same name and the same number of windows |
| Tasks.Sort | libwnck/tasklist.c:1082 | `g_list_sort` keeps the number of tasks |
| Tasks.CompareWindowBeforeStartup | libwnck/task.c:1578-1605 | a window whose sort order is below G_MAXINT sorts strictly before any startup sequence |
| Tasks.CmpAntisymmetric | libwnck/task.c:1544-1609 | both comparators are antisymmetric |
| Tasks.CmpTransitive | libwnck/task.c:1544-1609 | both comparators are transitive, so sorting by them is well defined |
| Tasks.NatToString | libwnck/task.c:392-397 | a window count prints as a non-empty string of decimal digits |
| Tasks.ParseNatToString | libwnck/task.c:392-397 | reading back the printed count gives the count |
| Tasks.LastIndexOf | libwnck/task.c:392-397 | finds the last occurrence of a character, or says there is none |
| Tasks.GroupLabelRoundTrip | libwnck/task.c:389-397 | the label "name (n)", or "(n)" for an empty name, determines both the name and the window count |
| Tasks.InsertPermutes | libwnck/tasklist.c:1788 | inserting adds exactly the inserted task to the list |
| Tasks.InsertSorted | libwnck/tasklist.c:1788 | inserting into a sorted list keeps it sorted |
| Tasks.SortSortedPermutation | libwnck/tasklist.c:1082 | `g_list_sort` returns an ordered permutation of its input |
| Tasks.ButtonContent | libwnck/task.c:610-624 | the image shows once the width reaches 16 + padding + 8; the label shows below that or from a further 8 pixels on; never neither |
| Tasks.ButtonContentMonotone | libwnck/task.c:610-624 | a wider button that shows its image at one width shows it at every larger width |
| Scoring.BestIndex | libwnck/task.c:1660-1685 | the running-maximum search returns a position in the list, if any |
| Scoring.BestIndexIsLastMaximum | libwnck/task.c:1665-1680 | the search finds a group whose score is at least the initial −10^9 and at least every other score, the last such on ties (`>=`), or reports that every score is below −10^9 |
| Scoring.HighestScored | libwnck/task.c:1660-1685 | returns the last highest-scored group, and the list minus exactly that group; with every score below −10^9 it returns no group and the list unchanged |
| Scoring.RemoveFirstRemoves | libwnck/task.c:1684 | `g_list_remove` removes one occurrence of a present element and leaves a list without it unchanged |
| Scoring.RemoveFirstAt | libwnck/task.c:1684 | removing the first occurrence at position k leaves the elements before and after k |
| Scoring.CollapseHighest | libwnck/tasklist.c:1017-1019 | one grouping round takes the best group, leaves the rest, and saves the group's windows minus one button |
| Scoring.PopulatedAll | libwnck/tasklist.c:1019 | every class group holds at least one window |
| Scoring.BestIndexFound | libwnck/task.c:1665-1680 | a non-empty list of groups scored at least −10^9 always yields a best group |
| Scoring.Best | libwnck/task.c:1660-1685 | the best group is one of the groups |
| Scoring.BestDominates | libwnck/task.c:1673 | no group scores above the best one |
| Scoring.PickOrderPermutes | libwnck/tasklist.c:849-858 | the order in which the loops take the groups holds every group, each as often as it occurs |
| Scoring.PickOrderUnfold | libwnck/tasklist.c:858 | the loop takes the best group first and then continues on what remains |
| Scoring.PickOrderNonIncreasing | libwnck/tasklist.c:849-858 | groups are taken in non-increasing score order |
| Scoring.CollapsedPickOrder | libwnck/tasklist.c:860 | grouping every group saves the same number of buttons, whatever order they are taken in |
| Scoring.CollapsedRemoveFirst | libwnck/tasklist.c:1019 | the buttons saved split into the removed group's windows minus one and those of the rest |
| Scoring.CollapsedBounds | libwnck/tasklist.c:860 | the buttons saved are between 0 and the windows minus the groups |
| Scoring.CollapsedTotal | libwnck/tasklist.c:860 | grouping everything saves the total window count minus the number of groups |
| Scoring.TotalWindowsRemoveFirst | libwnck/tasklist.c:1019 | removing a group removes exactly its windows from the total |
| SizeHints.MaxRequested | libwnck/tasklist.c:781-800 | the maximum button height is at least 1, bounds every requested height, and is 1 or one of them |
| SizeHints.ColumnTableAt | libwnck/tasklist.c:830-834 | the m-th entry of the table of column counts is the layout's column count for m buttons |
| SizeHints.SizeHintList | libwnck/tasklist.c:816-910 | the array-building loop produces exactly the specified size hints, at least two entries of them, and the width request is the first one |
| SizeHints.GroupingRound | libwnck/tasklist.c:849-889 | one loop round advances the construction without changing the list it finally produces |
| SizeHints.SizeHintsShape | libwnck/tasklist.c:893-901 | the size hints have even length of at least 2 and end in 0 |
| SizeHints.SizeHintsOrdered | libwnck/tasklist.c:826-889 | with grouping limit ≥ 0, the hints are non-increasing and each recorded range sits strictly below the previous one |
| SizeHints.SizeHintsUngrouped | libwnck/tasklist.c:838-847 | except under ALWAYS, the first hint is the ungrouped width cols × max_width; under NEVER the list is [that, 0] |
| SizeHints.SizeHintsAlways | libwnck/tasklist.c:849-901 | under ALWAYS, the hints are [cols × max_width, 0] for the fully grouped button count, or [0, 0] with no class groups |
| SizeHints.AlwaysCollapsesAll | libwnck/tasklist.c:849-901 | with class groups, ALWAYS yields [cols × max_width, 0] for the buttons left once every group is collapsed |
| SizeHints.SizeHintsFromColumns | libwnck/tasklist.c:840-883 | every hint before the final 0 is cols(m) × max_width at an even position and cols(m) × limit at an odd one, for some button count m |
| SizeHints.RecordKeepsOrder | libwnck/tasklist.c:867-888 | recording a column change, by overlap or as a full new range, keeps the list ordered |
| SizeHints.OverlapKeepsOrder | libwnck/tasklist.c:872-877 | an overlapping range only lowers the last entry, and the list stays ordered |
| SizeHints.NewRangeKeepsOrder | libwnck/tasklist.c:878-885 | a full new range below the lowest one keeps the list ordered |
| SizeHints.ColumnTableFits | libwnck/tasklist.c:830-866 | column counts times the maximum width fit in a `gint`, and the table of column counts never decreases as buttons are added |
| SizeHints.CollectOrdered | libwnck/tasklist.c:849-889 | the grouping rounds keep the hints non-increasing and the recorded ranges apart |
| SizeHints.LowerLastKeepsOrder | libwnck/tasklist.c:873-877 | lowering the last hint keeps the list non-increasing with its ranges apart |
| SizeHints.AppendPairKeepsOrder | libwnck/tasklist.c:879-885 | appending a range below the lowest one keeps the list non-increasing with its ranges apart |
| SizeHints.CollectEven | libwnck/tasklist.c:840-885 | every step appends a pair or overwrites an entry, so the length stays even |
| SizeHints.CollectKeepsFirst | libwnck/tasklist.c:840-885 | later rounds never change the first hint |
| SizeHints.CollectAlways | libwnck/tasklist.c:849-889 | under ALWAYS, only the round that empties the list records a range: the fully grouped one |
| SizeHints.FinishShape | libwnck/tasklist.c:893-901 | zeroing the last entry, or writing [0, 0] into an empty array, gives an even list of at least 2 that ends in 0 |
| SizeHints.ColsFollow | libwnck/tasklist.c:862-866 | fewer buttons never need more columns |
| Allocation.GridTableAt | libwnck/tasklist.c:1001-1005 | the m-th entry of the table of layouts is the layout for m buttons |
| Allocation.Relayout | libwnck/tasklist.c:1046-1050 | the relayout after saving buttons is the table's layout for the buttons left |
| Allocation.Shown | libwnck/tasklist.c:1021-1044 | a grouped class group with several windows shows its own button, with the same windows now sorted by text; one with a single window shows that window |
| Allocation.GroupCount | libwnck/tasklist.c:1006-1009 | how many groups the loop collapses: none under NEVER, all under ALWAYS, at most all under AUTO |
| Allocation.GroupCountKeeps | libwnck/tasklist.c:1006-1009 | before the loop stops, each round starts with the policy asking for grouping at the current button width |
| Allocation.GroupCountHalts | libwnck/tasklist.c:1006-1009 | when groups are left, the loop stops only because the policy stops asking, e.g. AUTO once the width reaches the grouping limit |
| Allocation.WithoutPicks | libwnck/tasklist.c:1017 | after k rounds, the groups left are taken in the rest of the same order |
| Allocation.WithoutPermutes | libwnck/tasklist.c:1017 | the groups taken plus the groups left are the original groups |
| Allocation.WithoutTotalWindows | libwnck/tasklist.c:1017-1019 | the windows of the groups taken plus those of the groups left are all windows |
| Allocation.WithoutCollapsed | libwnck/tasklist.c:1019 | the saved buttons split between the groups taken and the groups left |
| Allocation.RoundStops | libwnck/tasklist.c:1006-1009 | the loop exits exactly after the specified number of rounds |
| Allocation.Grouped | libwnck/tasklist.c:1000-1051 | every class group ends either collapsed, leaving one shown button, or among the groups left |
| Allocation.GroupingLoop | libwnck/tasklist.c:1000-1051 | the loop leaves exactly the specified buttons, ungrouped groups, saved-button count and final layout, and 0 ≤ saved ≤ n |
| Placement.ConcatMapPermutation | libwnck/tasklist.c:1117-1121 | the windows rebuilt from a reordered list of buttons are the same windows |
| Placement.FlattenLength | libwnck/tasklist.c:1053-1063 | the ungrouped groups contribute all of their windows |
| Placement.AssembleVisible | libwnck/tasklist.c:1053-1082 | the visible list is the sorted concatenation of the collapsed groups' buttons, the ungrouped windows, the windows without a class and the startup sequences, one entry per button |
| Placement.VisibleOrdered | libwnck/tasklist.c:1082 | the visible tasks are in `wnck_task_compare` order |
| Placement.ChildAllocation | libwnck/tasklist.c:1096-1107 | the loop's row, column and rectangle for task i are its cell and its slice of the allocation |
| Placement.MarkWindows | libwnck/tasklist.c:1124-1128 | every window of a group button gets the button's cell |
| Placement.PlaceButtons | libwnck/tasklist.c:1085-1132 | the placement loop gives each visible task its rectangle, builds the window list of the buttons in order, and records the cells |
| Placement.SetAllEffect | libwnck/tasklist.c:1124-1128 | marking gives the listed windows the cell and leaves every other key as it was |
| Placement.PlaceOneEffect | libwnck/tasklist.c:1122-1128 | placing one button sets the cell of it and its windows and nothing else |
| Placement.PlacedAt | libwnck/tasklist.c:1093-1132 | after placement, each task of visible button i (and each of its windows) sits in cell i |
| Placement.PlacedElsewhere | libwnck/tasklist.c:1093-1132 | keys of no visible button keep their old cell |
| Placement.ButtonRectInside | libwnck/tasklist.c:1102-1107 | each button lies inside the allocation and is at least width / cols wide and height / rows high |
| Placement.ButtonRectsDisjoint | libwnck/tasklist.c:1096-1107 | the rectangles of two different buttons do not overlap |
| Placement.ButtonRectsAbut | libwnck/tasklist.c:1096-1107 | button i and button i + rows share a row, and one ends where the other begins, on the side the text direction says |
| Placement.GroupAndAssemble | libwnck/tasklist.c:1000-1082 | grouping then assembling gives the specified visible list and the layout of its length |
| Placement.Allocate | libwnck/tasklist.c:967-1140 | size_allocate's visible list, grid, rectangles and cells are the specified ones, the grid holds every visible button, and the new window list holds the same windows |
| Placement.GroupedNever | libwnck/tasklist.c:1006-1009 | NEVER groups nothing and saves no button |
| Placement.GroupedAlways | libwnck/tasklist.c:1006-1009 | ALWAYS groups every class group and saves all windows minus one button per group |
| Placement.ButtonsLeft | libwnck/tasklist.c:1046-1050 | after k rounds, the buttons counted by the relayout are the windows less those saved |
| Placement.ContributionsOfWindows | libwnck/tasklist.c:1117-1121 | a window button contributes itself to the rebuilt window list |
| Placement.ContributionsOfStartups | libwnck/tasklist.c:1112 | startup sequences contribute nothing to the window list |
| Placement.ShownContribution | libwnck/tasklist.c:1117-1121 | a collapsed group contributes exactly its windows |
| Placement.WindowListRebuilt | libwnck/tasklist.c:1112-1140 | the window list rebuilt from the visible buttons holds exactly the windows it held before |
| Inclusion.IncludeWindowEligible | libwnck/tasklist.c:1612-1650 | the ordered checks of include_window agree with a direct statement: not skip-tasklist, on the monitor, and then all workspaces, pinned, no active workspace, needs attention, or on the active workspace and (not virtual, or in the viewport) |
| Inclusion.IncludeWindowImpl | libwnck/tasklist.c:1605-1651 | the skipped-list check passes exactly the windows on the tasklist's monitor; a window the tasklist lists does not ask to be skipped and is on the monitor |
| Inclusion.IncludedPassesSkippedList | libwnck/tasklist.c:1612-1629 | every included window also passes the skipped-list check |
| Inclusion.UnmatchedMembers | libwnck/task.c:1834-1860 | the startup sequences left are exactly those whose id differs from the window's startup id |
| Inclusion.UnmatchedWithoutId | libwnck/task.c:1841-1843 | a window without a startup id removes no sequence |
| Inclusion.RemoveStartupSequencesForWindow | libwnck/task.c:1834-1864 | the loop leaves exactly the unmatched startup sequences, in order |
| Inclusion.IncludedTasksMembers | libwnck/tasklist.c:1714-1722 | the window list holds exactly the included windows of the screen |
| Inclusion.UnclassedTasksMembers | libwnck/tasklist.c:1758-1764 | the no-class list holds exactly the included windows whose class-group id is empty |
| Inclusion.SkippedWindowsMembers | libwnck/tasklist.c:1766-1777 | the skipped list holds exactly the excluded windows that pass the skipped-list check |
| Inclusion.StartupsLeftMembers | libwnck/tasklist.c:1721 | the startup sequences left are those no included window matches |
| Inclusion.PartitionStep | libwnck/tasklist.c:1715-1780 | each window of the screen prepends to exactly the lists it belongs to |
| Inclusion.MembersGrow | libwnck/tasklist.c:1754-1756 | prepending a window to a known group adds exactly that window to the grouped windows |
| Inclusion.DistinctIdsApart | libwnck/tasklist.c:1735-1751 | the class-group hash gives each class group one task |
| Inclusion.AddToGroup | libwnck/tasklist.c:1730-1757 | a classed window goes into its group's list, and the group is created and prepended when new; the groups stay one per id, and exactly the window is added |
| Inclusion.AddNewGroup | libwnck/tasklist.c:1738-1752 | a new class group starts with the window alone |
| Inclusion.AddToExistingGroup | libwnck/tasklist.c:1754-1756 | a known class group gains exactly the window |
| Inclusion.GroupTaskOk | libwnck/tasklist.c:1782-1796 | each class-group task has a non-empty id, at least one window, a score, and its windows sorted by `wnck_task_compare` and all of that class |
| Inclusion.GroupTasksWindows | libwnck/tasklist.c:1782-1796 | sorting the group lists keeps their windows |
| Inclusion.GroupsWellFormed | libwnck/tasklist.c:1782-1796 | the class-group tasks are well formed, scored, non-empty, and have distinct keys |
| Inclusion.SortGroupWindows | libwnck/tasklist.c:1782-1796 | the sorting loop produces exactly the specified class-group tasks |
| Inclusion.Partition | libwnck/tasklist.c:1714-1796 | the windows, no-class and skipped lists are the reversed screen selections; the startup sequences are those left; classed plus unclassed windows are the window list; the groups are well formed |
| Inclusion.StartupsLeftStartups | libwnck/task.c:1834-1860 | only startup sequences remain in the startup list |
| Inclusion.PartitionLists | libwnck/tasklist.c:1714-1796 | the partition's lists satisfy the shape the allocation relies on |
| Navigation.IndexOfKey | libwnck/tasklist.c:1423-1424 | `g_list_find` gives the first position holding the task, or says there is none |
| Navigation.SearchBackward | libwnck/tasklist.c:1480-1482 | walking backwards finds the nearest earlier window in the wanted cell, or there is none |
| Navigation.SearchForward | libwnck/tasklist.c:1504-1506 | walking forwards finds the nearest later window in the wanted cell, or there is none |
| Navigation.Scroll | libwnck/tasklist.c:1410-1531 | a pending activation with no active task swallows the scroll; with no active task, up/down/left/right start from the list's ends (mirrored in RTL); with one, up/down step to the previous/next task (none at the ends), and left/right reach the nearest task in the same row and the column to that side, searching toward it, and otherwise the leftmost/rightmost end of the list |
| Navigation.NearestAfterUnique | libwnck/tasklist.c:1504-1506 | the nearest window after the active one in a cell is unique |
| Navigation.NearestBeforeUnique | libwnck/tasklist.c:1480-1482 | the nearest window before the active one in a cell is unique |
| Navigation.ScrollFindsNextColumn | libwnck/tasklist.c:1501-1512 | on the grid the allocation laid out, the search forward finds the task one column over, rows positions later |
| Navigation.ScrollFindsPreviousColumn | libwnck/tasklist.c:1477-1489 | likewise, the search backward finds the task rows positions earlier |
| Navigation.NextInGroup | libwnck/task.c:94-118 | picks the first window after one that was most recently activated; when there is none, picks the first window; picks nothing only for an empty group |
| Navigation.NextInGroupRoundRobin | libwnck/task.c:94-118 | with one most recently activated window at j, the pick is (j + 1) mod n |
| Navigation.AsWrittenCycleDiverges | libwnck/tasklist.c:1920-1928 | in the transient loop as written, a cycle that avoids the initial window never ends, for any number of steps |
| Navigation.AsWrittenNeverAnswers | libwnck/tasklist.c:1918-1928 | so with active window 1 transient for 2, and 2 and 3 transient for each other, the search as written yields no answer |
| Navigation.NthEnds | libwnck/tasklist.c:1920-1922 | a transient chain that has ended stays ended |
| Navigation.NthCycles | libwnck/tasklist.c:1920-1927 | once the chain returns to a window already seen, it only visits windows already seen |
| Navigation.FindActiveTask | libwnck/tasklist.c:1918-1928 | the search, guarded against every cycle, always ends; it returns the first window along the transient chain that has a task, and returns none only when no window of the chain has one |
| TaskOps.DragDataGet | libwnck/task.c:709-722 | drag data carries the dragged XID as 8 bytes of format 8, which the receiver accepts |
| TaskOps.FirstWithXid | libwnck/task.c:754-766 | the search for the dropped XID finds its first window, or reports it absent |
| TaskOps.DragDataReceived | libwnck/task.c:725-810 | data of the wrong length or format, or an unknown XID, leaves every sort order unchanged; a quick drop on its own button changes nothing and activates the window; otherwise every order ≥ the drop point is bumped in `guint`, the dragged window takes the drop point, and the workspace move is reported |
| TaskOps.DragRoundTrip | libwnck/task.c:709-766 | data produced by a drag source is accepted and finds its window again |
| TaskOps.RenumberedKeepsOrder | libwnck/task.c:787-796 | without wrap-around, a drop keeps the relative order, and ties, between every two other windows |
| TaskOps.DropLandsBesideTarget | libwnck/task.c:759-796 | afterwards, the dragged window sorts after exactly the windows that sorted before the target, plus the target itself when it was dragged from before it |
| TaskOps.DropNextToTarget | libwnck/task.c:759-796 | dragged from before, the window lands just after the target; otherwise the target moves just after it |
| TaskOps.BumpWrapsAtMax | libwnck/task.c:792-794 | a sort order of G_MAXINT that is bumped wraps to G_MININT |
| TaskOps.AlphaOffsetPosition | libwnck/task.c:148-157 | the byte the loop halves for pixel (x, y) lies in row y at offset 4x + 3 |
| TaskOps.AlphaInBuffer | libwnck/task.c:148-157 | every byte the loop touches lies in the pixel buffer |
| TaskOps.AlphaByteOffsets | libwnck/task.c:148-157 | every pixel's alpha byte is one of the bytes to halve |
| TaskOps.DimmedStep | libwnck/task.c:154 | each inner step halves one alpha byte and nothing else |
| TaskOps.DimmedNone | libwnck/task.c:148 | before the loop, nothing has been halved |
| TaskOps.DimmedRow | libwnck/task.c:159 | finishing a row is the same as starting the next |
| TaskOps.DimIcon | libwnck/task.c:130-161 | the alpha byte of every pixel is halved (integer division), and every other byte is unchanged |
| TaskOps.TasklistSetActive | libwnck/tasklist.c:1816-1819 | the tasklist's own set-active, wrapped in really_toggling, sets the state, clears the flag and runs no action |
| TaskOps.Toggled | libwnck/task.c:347-378 | with really_toggling set, the handler does nothing; otherwise it flips the button back and runs the task's action |
| TaskOps.GtkSetActive | libwnck/task.c:356-358 | setting a new state sticks only while really_toggling is set; otherwise the handler undoes it and runs the action; setting the current state does nothing |
| TaskOps.Click | libwnck/task.c:347-378 | a user click is undone at once, so the pressed state stays, and the task's action runs; while really_toggling is set, the toolkit's new state stays and no action runs |
| TaskLists.KeysMember | libwnck/tasklist.c:1423 | a task key is listed exactly when some task of the list has that key |
| TaskLists.KeysOfPermutation | libwnck/tasklist.c:1140 | reordering a list keeps its keys |
| TaskLists.KeyKinds | libwnck/tasklist.c:1811-1812 | the window list holds window tasks, the group list group tasks, and the startup list startup tasks |
| TaskLists.GroupLookup | libwnck/tasklist.c:1834-1835 | the class-group hash finds the group task with the window's class id exactly when one is listed |
| TaskLists.GroupLookupListed | libwnck/tasklist.c:1834-1835 | a group found by the lookup has a listed key |
| TaskLists.XidFound | libwnck/tasklist.c:1919 | a window in the window hash has a task in the window list |
| TaskLists.RemoveTask | libwnck/tasklist.c:1254-1326 | removal by button shortens the list by one exactly when some task has the key |
| TaskLists.RemoveTaskAtFirst | libwnck/tasklist.c:1254-1326 | removal by button drops the first task with that key and keeps every other task, or leaves a list without it unchanged |
| TaskLists.RemoveTaskAbsent | libwnck/tasklist.c:1254-1326 | removal by the button of a task that is not listed leaves the list unchanged |
| TaskLists.RemoveTaskPresent | libwnck/tasklist.c:1254-1326 | removal by the button of a listed task removes exactly one task with that key |
| TaskLists.RemoveTaskEffect | libwnck/tasklist.c:1254-1326 | removal takes out exactly one task with the key when there is one, and never adds anything |
| TaskLists.RemoveFrom | libwnck/tasklist.c:1254-1268 | the search-and-remove loop over one list removes exactly the first task with the key |
| TaskLists.FirstEnded | libwnck/tasklist.c:2318-2341 | finds the first startup sequence whose WM_CLASS equals the window's class or instance name, or reports that there is none |
| TaskLists.NamelessEndsNothing | libwnck/tasklist.c:2315-2316 | a window with neither class nor instance name ends no sequence |
| TaskLists.Press | libwnck/tasklist.c:1816-1829 | setting one button's state changes that button alone |
| TaskLists.ReleaseTask | libwnck/tasklist.c:1814-1820 | releasing the old active task's button leaves the buttons showing no active task |
| TaskLists.PressTask | libwnck/tasklist.c:1822-1830 | pressing the new task's button makes the buttons show it active |
| TaskLists.ReleaseGroup | libwnck/tasklist.c:1841-1847 | releasing the old group's button leaves the buttons showing no active group |
| TaskLists.PressGroup | libwnck/tasklist.c:1849-1857 | pressing the new group's button makes the buttons show it active |
| TaskLists.SwitchActive | libwnck/tasklist.c:1805-1858 | the pressed buttons follow the new active task and group; the same task changes nothing, and no task leaves the group alone |
| TaskLists.RescoredFlatten | libwnck/tasklist.c:1013 | scoring the groups changes no group's windows |
| TaskLists.RescoredKeys | libwnck/tasklist.c:1013 | scoring the groups changes no key |
| TaskLists.RescoredGroups | libwnck/tasklist.c:1013 | scored groups satisfy the score bound and keep their windows |
| TaskLists.StartupButtons | libwnck/tasklist.c:1559-1591 | destroying the window and group buttons leaves exactly the startup buttons |
| TaskLists.FreedInv | libwnck/tasklist.c:1552-1598 | freeing the tasks leaves a valid tasklist with nothing active |
| TaskLists.RebuiltButtons | libwnck/tasklist.c:1721-1745 | rebuilding gives a fresh button to every new window and group task and keeps the buttons that survive, except the buttons of startup sequences completed by a new window, which are destroyed (task.c:1834-1857) and so leave the tasklist (tasklist.c:1316-1324) |
| TaskLists.RebuiltInv | libwnck/tasklist.c:1714-1796 | rebuilt lists with their buttons form a valid tasklist with nothing active |
| TaskLists.Rebuild | libwnck/tasklist.c:1714-1796 | rebuilding gives the lists specified from the screen and a valid tasklist, with the buttons of RebuiltButtons: one per window and group task, plus the old buttons less those of the completed startup sequences |
| TaskLists.Refill | libwnck/tasklist.c:1714-1799 | rebuilding gives the lists specified from the screen and a valid tasklist; the buttons are one per window and group task plus the old ones less those of the completed startup sequences; the active task is then the one found along the active window's transient chain (`ActiveFound`), and the active class group is that task's group, or none without a task |
| TaskLists.Update | libwnck/tasklist.c:1670-1800 | update_lists keeps the tasklist valid: unrealized, it keeps only the startup sequences, their buttons and nothing active; realized, it has the lists rebuilt from the screen, a button for every window and group task and for every startup sequence still running whose button survived the freeing, and the active task and class group found again as in Refill |
| TaskLists.StartupsLeftKeys | libwnck/task.c:1834-1857 | a rebuild only removes startup sequences: every one left was there before |
| TaskLists.UpdatedButtonsExact | libwnck/tasklist.c:1670-1800 | when every startup sequence had its button beforehand, the realized update leaves exactly one button per window task, group task and startup sequence still running |
| TaskLists.ButtonsChangedInv | libwnck/tasklist.c:1805-1858 | changing only button states, as the active-task switch does, keeps the tasklist valid |
| TaskLists.ListsCount | libwnck/tasklist.c:991-992 | the window count is the grouped windows plus the windows without a class |
| TaskLists.RescoredInv | libwnck/tasklist.c:1013 | scoring the groups keeps the tasklist valid |
| TaskLists.Reallocate | libwnck/tasklist.c:967-1140 | size_allocate scores the groups, lays out the visible buttons the policy leaves, gives each task its cell, and reorders the window list without changing its windows; the tasklist stays valid |
| TaskLists.ReorderedInv | libwnck/tasklist.c:1140 | replacing the window list by a permutation keeps the tasklist valid |
| TaskLists.RemoveStartupInv | libwnck/tasklist.c:1310-1326 | removing a startup button touches only the startup list and keeps the tasklist valid |
| TaskLists.RemoveKey | libwnck/tasklist.c:1242-1329 | remove takes the task out of every list it is found in and drops its button; a startup sequence's removal keeps the tasklist valid |
| TaskLists.ChangeActive | libwnck/tasklist.c:1805-1858 | the active task becomes the given one; its class group becomes active if the task changed; the same task changes nothing; the tasklist stays valid |
| TaskLists.ActiveChanged | libwnck/tasklist.c:1805-1931 | the new active task is the first window along the active window's transient chain that has a task, or none when no window of the chain has one; a new active task brings its window's class group as the active class group; no task, or the same task, leaves the class group as it was, and the same task leaves every button as it was; every button is kept and the tasklist stays valid |
| TasklistState.Tasklist.constructor | libwnck/tasklist.c:235-300 | a new tasklist is unrealized, has no task and nothing active, and is valid |
| TasklistState.Tasklist.ChangeActiveTask | libwnck/tasklist.c:1805-1858 | as TaskLists.ChangeActive, on the object's fields |
| TasklistState.Tasklist.ActiveWindowChanged | libwnck/tasklist.c:1805-1931 | as TaskLists.ActiveChanged, on the object's fields: the active task found along the transient chain, and the class group of a new active task |
| TasklistState.Tasklist.FreeTasks | libwnck/tasklist.c:1552-1598 | empties the window, group, no-class and skipped lists, keeps only startup buttons, clears the active task and group, and stays valid |
| TasklistState.Tasklist.UpdateLists | libwnck/tasklist.c:1670-1800 | as TaskLists.Update, on the object's fields |
| TasklistState.Tasklist.SizeAllocate | libwnck/tasklist.c:967-1144 | as TaskLists.Reallocate, on the object's fields |
| TasklistState.Tasklist.Remove | libwnck/tasklist.c:1242-1329 | as TaskLists.RemoveKey, on the object's fields |
| TasklistState.Tasklist.CheckEndSequence | libwnck/tasklist.c:2302-2342 | a window ends the first startup sequence it matches by WM_CLASS and no other, whose button goes with it; it leaves the other lists and buttons alone and keeps the tasklist valid |
| TasklistState.Tasklist.ActivateTaskWindow | libwnck/tasklist.c:2114-2172 | a minimized window is unminimized, first activating its workspace when that is not the active one and switch_workspace_on_unminimize is unset; a window that is not minimized, was active (or whose transient was most recently activated) and is on the active workspace is minimized, and nothing else changes; any other window is activated together with its workspace; except after a minimize, the task becomes active, an activation is pending and the set of buttons stays; the active class group becomes the group of the task's window (tasklist.c:1832-1857), unless the task was already active, when nothing else changes (1807-1809) |
| TasklistState.Tasklist.ChangeActiveTimeout | libwnck/tasklist.c:2102-2111 | the pending activation ends, the tasklist stays valid, and the active task and class group are found again as in ActiveWindowChanged |
| TasklistState.Tasklist.ButtonClicked | libwnck/task.c:348-374 | a click on a window button undoes its own toggle and then activates the window, with the action of ActivateTaskWindow: unminimize a minimized window (moving to its workspace unless the tasklist switches), minimize one that was active or had the most recent transient on the active workspace, and activate any other; the tasklist stays valid; a minimize leaves the buttons, the active task and class group and the pending flag as they were; any other action makes the task active with an activation pending, keeps the set of buttons, and makes the group of the task's window the active class group unless the task was already active |

## Left out

- GTK, X11 and startup-notification calls: widget show/hide, parenting, size requests of the child buttons, style padding, Pango metrics, the drag protocol, menus, timers and idle callbacks. Their results are parameters: the requested sizes, the padding, the active window, the transient map, the clock values and the scores.
- Grouping scores are abstract integers given to size_allocate. `wnck_tasklist_score_groups` computes a `double` from window titles and is not modelled.
- `g_utf8_collate` is modelled as lexicographic code-point comparison, a total order. Locale collation is not modelled.
- The monitor test compares a window's monitor attribute with the tasklist's monitor number. The GDK monitor lookup and the instance counting that choose that number are not modelled.
- TaskOps.DragDataReceived: returns the workspace move as a flag instead of moving the window.
- TasklistState.Tasklist.CheckEndSequence: does not model `sn_startup_sequence_complete`, a call into the startup-notification library.
- TasklistState.Tasklist.ActivateTaskWindow: does not model `was_active`. It is a parameter, and the reset to FALSE before minimizing is not stored.
- TaskLists.Reallocate: the windows of a collapsed group are sorted by text only in the button it shows. The group list kept in the state keeps its windows in `wnck_task_compare` order.
- Icon geometries, `wnck_task_update_visible_state`, the glow animation, `wnck_task_scale_icon` and `wnck_task_draw` are drawing or foreign calls, and are not modelled.
- `sizeof (gulong)` is taken to be 8, as on LP64 platforms.
- Placement.ChildAllocation: the `gint` wrap of width × col and height × row (tasklist.c:1102-1105) is not modelled. The products are unbounded integers here.
- TaskLists.Rebuild: states that the class groups are well formed, and not the list's order (the most recently first-seen group comes first).
- Placement.PlacedAt: requires that no two visible buttons share a task. The allocation guarantees this, but no lemma connects the two.
- TasklistState.Tasklist.ActivateTaskWindow: requires a window task listed in the tasklist. Every caller passes one, so the early return for a task without a window (2124-2125) is not modelled.
- TaskOps.DragDataReceived: a quick drop on its own button reports ActivatedTarget instead of calling the activation.
- Navigation.NextInGroup: returns the position to activate. Clearing `was_active` and the activation call (task.c:120-124) are left to ActivateTaskWindow.
- TasklistState.Tasklist: the class's methods delegate the computation to value-level methods of TaskLists, and then assign the results to the fields.
- TasklistState.Tasklist.UpdateLists: frees the tasks and re-finds the active task on values inside TaskLists.Update. It does not call the class's FreeTasks and ActiveWindowChanged.
- A click on a class-group button opens a menu, and a click on a startup button does nothing. `wnck_task_button_toggled` is modelled only for window buttons.
- SizeHints.SizeHintList: requires that n × max_button_width stays below G_MAXINT, where n is the number of buttons. The other size-hint members share this requirement through `Inputs` and `ColumnsFit`. The `gint` wrap-around of the products cols × max_button_width and cols × grouping_limit (tasklist.c:840-885) is not modelled.
- Tasks.Sort: its own contract states only the length. That the result is an ordered permutation is the lemma Tasks.SortSortedPermutation. As a postcondition it would apply at every sort in the layout proofs and make them much more costly.
- Scoring.RemoveFirst: its own contract states only the length. What is removed is the lemma Scoring.RemoveFirstRemoves, kept apart for the same reason.
- TaskLists.RemoveTask: its own contract states only the length. What is removed is the lemma TaskLists.RemoveTaskAtFirst.
- Allocation.Grouped: its own contract states only how the groups split. The exact outcome is the lemmas about it and the ensures of Allocation.GroupingLoop.

## Findings

| source | as written | input that shows it | evidently intended | confidence | as-written member | corrected member |
|---|---|---|---|---|---|---|
| libwnck/tasklist.c:1920-1928 | the transient-chain walk stops only when it returns to the initial window | active window 1 is transient for 2, and 2 and 3 are transient for each other; none has a task, so the loop cycles between 2 and 3 for ever | stop at any window already visited, and report no active task | not executed | Navigation.AsWrittenNeverAnswers | Navigation.FindActiveTask |

/**
 * The size request of the tasklist (libwnck/tasklist.c,
 * wnck_tasklist_size_request): the largest button height, and the list of
 * size hints, pairs of (largest, smallest) widths the tasklist can use.
 * Each pair belongs to one number of columns; class groups are collapsed one
 * at a time in score order and a pair is recorded whenever the column count
 * changes.
 */
module SizeHints {
  import opened Base
  import opened Tasks
  import opened Scoring
  import opened Geometry

  /**
   * The running maximum over the buttons' requested sizes, which starts at 1
   * (GET_MAX_WIDTH_HEIGHT_FROM_BUTTONS).
   */
  method MaxRequested(sizes: seq<int>) returns (m: int)
    ensures m >= 1
    ensures forall i :: 0 <= i < |sizes| ==> sizes[i] <= m
    ensures m == 1 || m in sizes
  {
    m := 1;
    var i := 0;
    while i < |sizes|
      invariant 0 <= i <= |sizes|
      invariant m >= 1
      invariant forall j :: 0 <= j < i ==> sizes[j] <= m
      invariant m == 1 || m in sizes[..i]
    {
      m := Max(sizes[i], m);
      i := i + 1;
    }
    assert sizes[..i] == sizes;
  }

  /** The allocation and the button sizes the size request works with. */
  datatype Sizes = Sizes(width: int, height: int, maxWidth: int, maxHeight: int)

  /** The columns of the grid that holds n buttons. */
  function Cols(sz: Sizes, n: nat): int
    requires sz.maxHeight >= 1
  {
    Layout(sz.width, sz.height, sz.maxHeight, n).cols
  }

  /** The column counts of the layouts of 0, 1, ..., n buttons. */
  function ColumnTable(sz: Sizes, n: nat): (t: seq<int>)
    requires sz.maxHeight >= 1
    ensures |t| == n + 1
    decreases n
  {
    if n == 0 then [Cols(sz, 0)] else ColumnTable(sz, n - 1) + [Cols(sz, n)]
  }

  lemma {:induction false} ColumnTableAt(sz: Sizes, n: nat, m: nat)
    requires sz.maxHeight >= 1 && m <= n
    ensures ColumnTable(sz, n)[m] == Cols(sz, m)
    decreases n
  {
    if m < n {
      ColumnTableAt(sz, n - 1, m);
    }
  }

  /** Neighbouring entries never increase. */
  ghost predicate NonIncreasing(h: seq<int>)
  {
    forall i, j :: 0 <= i < j < |h| ==> h[i] >= h[j]
  }

  /** Each pair starts strictly below the previous pair's lower end. */
  ghost predicate Disjoint(h: seq<int>)
  {
    forall i, j :: 0 <= i < j < |h| - 1 && j % 2 == 0 && i == j - 1 ==> h[j] < h[i]
  }

  /**
   * What the size request is given: the allocation, the largest button
   * width and height (the height is at least 1, as MaxRequested returns),
   * the number n of buttons (windows and startup sequences), and the class
   * groups with their scores.  Every class group holds at least one window
   * and the groups hold no more windows than there are buttons; every score
   * is at least the scan's starting maximum (a group of n windows scores at
   * least n - 5).  The widths the hints are made of fit a `gint`.
   */
  ghost predicate Inputs(sz: Sizes, n: nat, classGroups: seq<Task>)
  {
    sz.maxWidth >= 0 && sz.maxHeight >= 1 &&
    n < IntMax && n * sz.maxWidth < IntMax &&
    (forall t :: t in classGroups ==> WindowCount(t) >= 1) &&
    TotalWindows(classGroups) <= n &&
    AllScored(classGroups)
  }

  // ---------------------------------------------------------------------
  // The loop of wnck_tasklist_size_request as a function

  /**
   * What the loop works with: the policy, the capped grouping limit, the
   * largest button width, and the column counts of the layouts of 0 .. n
   * buttons, n being the number of buttons before any grouping.
   */
  datatype Setting = Setting(policy: Grouping, limit: int, maxWidth: int, columns: seq<int>)

  /** Every column count is non-negative, and so is the width; their products fit a `gint`. */
  ghost predicate ColumnsFit(s: Setting)
  {
    |s.columns| >= 1 && s.maxWidth >= 0 &&
    forall m :: 0 <= m < |s.columns| ==> 0 <= s.columns[m] < IntMax && s.columns[m] * s.maxWidth < IntMax
  }

  /** More buttons never need fewer columns. */
  ghost predicate ColumnsMonotone(columns: seq<int>)
  {
    forall i, j :: 0 <= i <= j < |columns| ==> columns[i] <= columns[j]
  }

  /** The array under construction, lowest_range and last_n_cols. */
  datatype Ranges = Ranges(hints: seq<int>, lowest: int, lastCols: int)

  /**
   * What the loop may still do, given the groups it will collapse in the
   * order it will take them: every group holds a window, and the buttons
   * collapsed so far together with those the remaining groups save never
   * exceed the n buttons.
   */
  ghost predicate Budget(s: Setting, order: seq<Task>, grouped: int)
  {
    ColumnsFit(s) &&
    (forall t :: t in order ==> WindowCount(t) >= 1) &&
    0 <= grouped <= |s.columns| - 1 && grouped + Collapsed(order) <= |s.columns| - 1
  }

  /** An empty array goes with the initial lowest range. */
  ghost predicate EmptyAtStart(r: Ranges)
  {
    r.hints == [] ==> r.lowest == IntMax
  }

  /** The state before the loop: the ungrouped range, unless the policy always groups. */
  function Init(s: Setting): Ranges
    requires |s.columns| >= 1
  {
    if s.policy != AlwaysGroup then
      var c := s.columns[|s.columns| - 1];
      Ranges([c * s.maxWidth, c * s.limit], c * s.limit, c)
    else Ranges([], IntMax, IntMax)
  }

  /**
   * Records the range of a new column count: a range that reaches the one
   * recorded last only lowers that one's lower end (the array then has an
   * entry, as the source asserts); otherwise a new pair
   * (cols * maxWidth, cols * limit) is appended.
   */
  function Record(r: Ranges, cols: int, maxWidth: int, gl: int): (r': Ranges)
    requires cols * maxWidth >= r.lowest ==> r.hints != []
    ensures r'.hints != [] && r'.lastCols == cols && r'.lowest == cols * gl
    ensures r'.hints[|r'.hints| - 1] == cols * gl
  {
    var val := cols * maxWidth;
    if val >= r.lowest then
      Ranges(r.hints[..|r.hints| - 1] + [cols * gl], cols * gl, cols)
    else
      Ranges(r.hints + [val, cols * gl], cols * gl, cols)
  }

  /** The rest of the order fits what is left of the budget once the next group is collapsed. */
  lemma BudgetTail(s: Setting, order: seq<Task>, grouped: int)
    requires order != [] && Budget(s, order, grouped)
    ensures var grouped' := grouped + WindowCount(order[0]) - 1;
      Budget(s, order[1..], grouped') &&
      grouped' + Collapsed(order[1..]) == grouped + Collapsed(order) && grouped <= grouped'
  {
    assert order[0] in order;
    assert forall t :: t in order[1..] ==> t in order;
    CollapsedBounds(order[1..]);
  }

  /**
   * The grouping loop of wnck_tasklist_size_request, over the groups in the
   * order the loop takes them: count the buttons the next group's collapse
   * saves, look up the columns of the remaining buttons, and record a range
   * when the column count changes (under AUTO for every change, under
   * ALWAYS only after the last group).  NEVER does not enter the loop.
   */
  function Collect(s: Setting, order: seq<Task>, grouped: int, r: Ranges): Ranges
    requires Budget(s, order, grouped) && EmptyAtStart(r)
    decreases |order|
  {
    if order == [] || s.policy == NeverGroup then r
    else
      BudgetTail(s, order, grouped);
      var grouped' := grouped + WindowCount(order[0]) - 1;
      var cols := s.columns[|s.columns| - 1 - grouped'];
      var r' := if cols != r.lastCols && (s.policy == AutoGroup || |order| == 1)
                then Record(r, cols, s.maxWidth, s.limit) else r;
      Collect(s, order[1..], grouped', r')
  }

  /** Setting the last entry to zero, or making the list (0, 0) when it is empty. */
  function Finish(h: seq<int>): seq<int>
  {
    if |h| > 0 then h[..|h| - 1] + [0] else [0, 0]
  }

  /** The column table of the layouts fits, and grows with the number of buttons. */
  lemma ColumnTableFits(sz: Sizes, n: nat, policy: Grouping, gl: int)
    requires sz.maxWidth >= 0 && sz.maxHeight >= 1 && n < IntMax && n * sz.maxWidth < IntMax
    ensures ColumnsFit(Setting(policy, gl, sz.maxWidth, ColumnTable(sz, n)))
    ensures ColumnsMonotone(ColumnTable(sz, n))
  {
    var t := ColumnTable(sz, n);
    forall m | 0 <= m < |t| ensures 0 <= t[m] < IntMax && t[m] * sz.maxWidth < IntMax {
      ColumnTableAt(sz, n, m);
      ColsFollow(sz, m, m);
      FitsInt(t[m], n, sz.maxWidth);
    }
    forall i, j | 0 <= i <= j < |t| ensures t[i] <= t[j] {
      ColumnTableAt(sz, n, i);
      ColumnTableAt(sz, n, j);
      ColsFollow(sz, i, j);
    }
  }

  /** The settings of a size request. */
  function SettingOf(policy: Grouping, gl: int, sz: Sizes, n: nat): Setting
    requires sz.maxHeight >= 1
  {
    Setting(policy, gl, sz.maxWidth, ColumnTable(sz, n))
  }

  /** The groups' pick order fits the budget of the n buttons. */
  lemma StartBudget(policy: Grouping, gl: int, sz: Sizes, n: nat, classGroups: seq<Task>)
    requires Inputs(sz, n, classGroups)
    ensures Budget(SettingOf(policy, gl, sz, n), PickOrder(classGroups), 0)
    ensures ColumnsMonotone(SettingOf(policy, gl, sz, n).columns)
    ensures Collapsed(PickOrder(classGroups)) == Collapsed(classGroups)
    ensures 0 <= Collapsed(classGroups) <= n
  {
    ColumnTableFits(sz, n, policy, gl);
    CollapsedBounds(classGroups);
    CollapsedPickOrder(classGroups);
    PickOrderPermutes(classGroups);
  }

  /** The size-hint list of wnck_tasklist_size_request, for a grouping limit gl. */
  function SizeHintsOf(policy: Grouping, gl: int, sz: Sizes, n: nat, classGroups: seq<Task>): seq<int>
    requires Inputs(sz, n, classGroups)
  {
    StartBudget(policy, gl, sz, n, classGroups);
    var s := SettingOf(policy, gl, sz, n);
    Finish(Collect(s, PickOrder(classGroups), 0, Init(s)).hints)
  }

  /**
   * wnck_tasklist_size_request's construction of the size hints, with the
   * grouping limit capped by the largest button width; the width it
   * requests is the first hint.
   */
  method SizeHintList(policy: Grouping, groupingLimit: int, sz: Sizes, nWindows: nat, nStartup: nat,
                      classGroups: seq<Task>)
    returns (hints: seq<int>, requestedWidth: int)
    requires Inputs(sz, nWindows + nStartup, classGroups)
    ensures hints == SizeHintsOf(policy, Min(groupingLimit, sz.maxWidth), sz, nWindows + nStartup, classGroups)
    ensures |hints| >= 2 && requestedWidth == hints[0]
  {
    var n := nWindows + nStartup;
    var gl := Min(groupingLimit, sz.maxWidth);
    ghost var s := SettingOf(policy, gl, sz, n);
    StartBudget(policy, gl, sz, n, classGroups);
    var g := Layout(sz.width, sz.height, sz.maxHeight, n);
    ColumnTableAt(sz, n, n);
    hints := [];
    var lastCols := IntMax;
    var lowest := IntMax;
    if policy != AlwaysGroup {
      // the two insertions of the source, as one
      hints := [g.cols * sz.maxWidth, g.cols * gl];
      lastCols := g.cols;
      lowest := g.cols * gl;
    }
    ghost var r0 := Ranges(hints, lowest, lastCols);
    assert r0 == Init(s);
    ghost var order0 := PickOrder(classGroups);
    ghost var order := order0;
    var ungrouped := classGroups;
    var grouped := 0;
    PopulatedAll(classGroups);
    while ungrouped != [] && policy != NeverGroup
      invariant AllScored(ungrouped) && Populated(ungrouped)
      invariant order == PickOrder(ungrouped)
      invariant Budget(s, order, grouped) && EmptyAtStart(Ranges(hints, lowest, lastCols))
      invariant Collect(s, order, grouped, Ranges(hints, lowest, lastCols)) == Collect(s, order0, 0, r0)
      decreases |ungrouped|
    {
      var task, rest := CollapseHighest(ungrouped);
      PickOrderUnfold(ungrouped);
      grouped, hints, lowest, lastCols :=
        GroupingRound(policy, gl, sz, n, task, rest == [], s, order, grouped, hints, lowest, lastCols);
      ungrouped := rest;
      order := order[1..];
    }
    // always let the tasklist go down to a zero width
    if |hints| > 0 {
      hints := hints[..|hints| - 1] + [0];
    } else {
      hints := [0, 0];
    }
    SizeHintsShape(policy, gl, sz, n, classGroups);
    requestedWidth := hints[0];
  }

  /**
   * One round of the grouping loop, once the highest-scored group `task`
   * has been taken (`last` when no group is left after it): the buttons its
   * collapse saves are counted, the remaining buttons are laid out, and a
   * range is recorded when the column count changed.  `order` is the order
   * in which the loop takes the groups from here on.
   */
  method GroupingRound(policy: Grouping, gl: int, sz: Sizes, n: nat, task: Task, last: bool,
                       ghost s: Setting, ghost order: seq<Task>,
                       grouped: int, hints: seq<int>, lowest: int, lastCols: int)
    returns (grouped': int, hints': seq<int>, lowest': int, lastCols': int)
    requires sz.maxHeight >= 1 && s == SettingOf(policy, gl, sz, n)
    requires policy != NeverGroup && order != [] && order[0] == task && (last <==> |order| == 1)
    requires Budget(s, order, grouped) && EmptyAtStart(Ranges(hints, lowest, lastCols))
    ensures Budget(s, order[1..], grouped') && EmptyAtStart(Ranges(hints', lowest', lastCols'))
    ensures Collect(s, order[1..], grouped', Ranges(hints', lowest', lastCols'))
         == Collect(s, order, grouped, Ranges(hints, lowest, lastCols))
  {
    ghost var r := Ranges(hints, lowest, lastCols);
    BudgetTail(s, order, grouped);
    grouped' := grouped + WindowCount(task) - 1;
    var g := Layout(sz.width, sz.height, sz.maxHeight, n - grouped');
    ColumnTableAt(sz, n, n - grouped');
    assert g.cols == s.columns[|s.columns| - 1 - grouped'];
    hints', lowest', lastCols' := hints, lowest, lastCols;
    if g.cols != lastCols && (policy == AutoGroup || last) {
      var val := g.cols * sz.maxWidth;
      if val >= lowest {
        // overlaps the old range
        assert |hints| > 0 by {
          assert val < IntMax;
        }
        lowest' := g.cols * gl;
        hints' := hints[..|hints| - 1] + [lowest'];
      } else {
        // a full new range; the two insertions of the source, as one
        hints' := hints + [val, g.cols * gl];
        lowest' := g.cols * gl;
      }
      lastCols' := g.cols;
      assert Ranges(hints', lowest', lastCols') == Record(r, g.cols, sz.maxWidth, gl);
    }
  }

  // ---------------------------------------------------------------------
  // Properties of the size hints

  /** The array keeps an even length, and once it has an entry it keeps one. */
  lemma {:induction false} CollectEven(s: Setting, order: seq<Task>, grouped: int, r: Ranges)
    requires Budget(s, order, grouped) && EmptyAtStart(r) && |r.hints| % 2 == 0
    ensures var h := Collect(s, order, grouped, r).hints;
      |h| % 2 == 0 && (r.hints != [] ==> h != [])
    decreases |order|
  {
    if order != [] && s.policy != NeverGroup {
      BudgetTail(s, order, grouped);
      var grouped' := grouped + WindowCount(order[0]) - 1;
      var cols := s.columns[|s.columns| - 1 - grouped'];
      var r' := if cols != r.lastCols && (s.policy == AutoGroup || |order| == 1)
                then Record(r, cols, s.maxWidth, s.limit) else r;
      CollectEven(s, order[1..], grouped', r');
    }
  }

  /** The state before the loop holds a whole number of ranges, and none only with the initial lowest range. */
  lemma InitShape(s: Setting)
    requires |s.columns| >= 1
    ensures EmptyAtStart(Init(s)) && |Init(s).hints| % 2 == 0
  {
  }

  lemma FinishShape(h: seq<int>)
    requires |h| % 2 == 0
    ensures |Finish(h)| >= 2 && |Finish(h)| % 2 == 0 && Finish(h)[|Finish(h)| - 1] == 0
  {
  }

  /**
   * The size-hint list has an even length of at least two and ends in 0, so
   * the tasklist can always shrink to nothing.
   */
  lemma SizeHintsShape(policy: Grouping, gl: int, sz: Sizes, n: nat, classGroups: seq<Task>)
    requires Inputs(sz, n, classGroups)
    ensures var h := SizeHintsOf(policy, gl, sz, n, classGroups);
      |h| >= 2 && |h| % 2 == 0 && h[|h| - 1] == 0
  {
    StartBudget(policy, gl, sz, n, classGroups);
    var s := SettingOf(policy, gl, sz, n);
    var r := Init(s);
    InitShape(s);
    var h := Collect(s, PickOrder(classGroups), 0, r).hints;
    assert SizeHintsOf(policy, gl, sz, n, classGroups) == Finish(h);
    CollectEven(s, PickOrder(classGroups), 0, r);
    FinishShape(h);
  }

  /**
   * The list is non-increasing, pairs are disjoint, and the last entry is
   * lowest_range, the last column count times the limit.
   */
  ghost predicate Ordered(r: Ranges, gl: int)
  {
    |r.hints| % 2 == 0 && NonIncreasing(r.hints) && Disjoint(r.hints) &&
    (r.hints != [] ==> r.lastCols >= 0 && r.lowest == r.lastCols * gl && r.hints[|r.hints| - 1] == r.lowest)
  }

  /** Recording the range of a column count no larger than the last one keeps the list ordered. */
  lemma RecordKeepsOrder(r: Ranges, cols: int, maxWidth: int, gl: int)
    requires Ordered(r, gl) && EmptyAtStart(r) && 0 <= gl <= maxWidth && 0 <= cols
    requires cols * maxWidth < IntMax
    requires r.hints != [] ==> cols <= r.lastCols
    ensures Ordered(Record(r, cols, maxWidth, gl), gl)
  {
    MulLeft(gl, maxWidth, cols);
    MulNonneg(cols, gl);
    if cols * maxWidth >= r.lowest {
      MulLeft(cols, r.lastCols, gl);
      OverlapKeepsOrder(r, cols, maxWidth, gl);
    } else {
      NewRangeKeepsOrder(r, cols, maxWidth, gl);
    }
  }

  lemma OverlapKeepsOrder(r: Ranges, cols: int, maxWidth: int, gl: int)
    requires Ordered(r, gl) && r.hints != [] && cols * maxWidth >= r.lowest
    requires 0 <= cols && 0 <= cols * gl <= r.lastCols * gl
    ensures Ordered(Record(r, cols, maxWidth, gl), gl)
  {
    LowerLastKeepsOrder(r.hints, cols * gl);
  }

  lemma NewRangeKeepsOrder(r: Ranges, cols: int, maxWidth: int, gl: int)
    requires Ordered(r, gl) && EmptyAtStart(r) && cols * maxWidth < r.lowest
    requires 0 <= cols && 0 <= cols * gl <= cols * maxWidth
    ensures Ordered(Record(r, cols, maxWidth, gl), gl)
  {
    AppendPairKeepsOrder(r.hints, r.lowest, cols * maxWidth, cols * gl);
  }

  lemma {:induction false} CollectOrdered(s: Setting, order: seq<Task>, grouped: int, r: Ranges)
    requires Budget(s, order, grouped) && EmptyAtStart(r)
    requires 0 <= s.limit <= s.maxWidth && ColumnsMonotone(s.columns) && Ordered(r, s.limit)
    requires r.hints != [] ==> s.columns[|s.columns| - 1 - grouped] <= r.lastCols
    ensures Ordered(Collect(s, order, grouped, r), s.limit)
    decreases |order|
  {
    if order != [] && s.policy != NeverGroup {
      BudgetTail(s, order, grouped);
      var grouped' := grouped + WindowCount(order[0]) - 1;
      var cols := s.columns[|s.columns| - 1 - grouped'];
      var r' := if cols != r.lastCols && (s.policy == AutoGroup || |order| == 1)
                then Record(r, cols, s.maxWidth, s.limit) else r;
      if cols != r.lastCols && (s.policy == AutoGroup || |order| == 1) {
        RecordKeepsOrder(r, cols, s.maxWidth, s.limit);
      }
      CollectOrdered(s, order[1..], grouped', r');
    }
  }

  /**
   * With a grouping limit of at least 0, the size hints never increase and
   * each pair lies strictly below the one before it.
   */
  lemma SizeHintsOrdered(policy: Grouping, groupingLimit: int, sz: Sizes, n: nat, classGroups: seq<Task>)
    requires Inputs(sz, n, classGroups) && groupingLimit >= 0
    ensures var h := SizeHintsOf(policy, Min(groupingLimit, sz.maxWidth), sz, n, classGroups);
      NonIncreasing(h) && Disjoint(h)
  {
    var gl := Min(groupingLimit, sz.maxWidth);
    StartBudget(policy, gl, sz, n, classGroups);
    var s := SettingOf(policy, gl, sz, n);
    InitOrdered(s);
    CollectOrdered(s, PickOrder(classGroups), 0, Init(s));
    FinishOrdered(Collect(s, PickOrder(classGroups), 0, Init(s)), gl);
  }

  lemma InitOrdered(s: Setting)
    requires ColumnsFit(s) && 0 <= s.limit <= s.maxWidth
    ensures Ordered(Init(s), s.limit)
  {
    MulLeft(s.limit, s.maxWidth, s.columns[|s.columns| - 1]);
  }

  lemma FinishOrdered(r: Ranges, gl: int)
    requires Ordered(r, gl) && gl >= 0
    ensures NonIncreasing(Finish(r.hints)) && Disjoint(Finish(r.hints))
  {
    if r.hints != [] {
      MulNonneg(r.lastCols, gl);
      LowerLastKeepsOrder(r.hints, 0);
    }
  }

  /** Once the list holds a pair, the loop never changes its first entry. */
  lemma {:induction false} CollectKeepsFirst(s: Setting, order: seq<Task>, grouped: int, r: Ranges)
    requires Budget(s, order, grouped) && EmptyAtStart(r) && |r.hints| >= 2
    ensures var h := Collect(s, order, grouped, r).hints;
      |h| >= 2 && h[0] == r.hints[0]
    decreases |order|
  {
    if order != [] && s.policy != NeverGroup {
      BudgetTail(s, order, grouped);
      var grouped' := grouped + WindowCount(order[0]) - 1;
      var cols := s.columns[|s.columns| - 1 - grouped'];
      var r' := if cols != r.lastCols && (s.policy == AutoGroup || |order| == 1)
                then Record(r, cols, s.maxWidth, s.limit) else r;
      CollectKeepsFirst(s, order[1..], grouped', r');
    }
  }

  /**
   * Unless the policy always groups, the first hint, the width the tasklist
   * requests, is the width of the ungrouped layout; under NEVER the list is
   * that width and 0.
   */
  lemma SizeHintsUngrouped(policy: Grouping, gl: int, sz: Sizes, n: nat, classGroups: seq<Task>)
    requires Inputs(sz, n, classGroups) && policy != AlwaysGroup
    ensures var h := SizeHintsOf(policy, gl, sz, n, classGroups);
      var c := Cols(sz, n);
      |h| >= 2 && h[0] == c * sz.maxWidth &&
      (policy == NeverGroup ==> h == [c * sz.maxWidth, 0])
  {
    StartBudget(policy, gl, sz, n, classGroups);
    var s := SettingOf(policy, gl, sz, n);
    ColumnTableAt(sz, n, n);
    CollectKeepsFirst(s, PickOrder(classGroups), 0, Init(s));
  }

  /**
   * Under ALWAYS only the layout after the last group is recorded: that of
   * the `left` buttons that remain once every group is collapsed.
   */
  lemma {:induction false} CollectAlways(s: Setting, order: seq<Task>, grouped: int, left: nat)
    requires s.policy == AlwaysGroup && Budget(s, order, grouped) && order != []
    requires left == |s.columns| - 1 - (grouped + Collapsed(order)) && left < |s.columns|
    ensures var c := s.columns[left];
      Collect(s, order, grouped, Ranges([], IntMax, IntMax)).hints == [c * s.maxWidth, c * s.limit]
    decreases |order|
  {
    BudgetTail(s, order, grouped);
    var grouped' := grouped + WindowCount(order[0]) - 1;
    if |order| > 1 {
      CollectAlways(s, order[1..], grouped', left);
    } else {
      assert |s.columns| - 1 - grouped' == left;
    }
  }

  /**
   * Under ALWAYS the list is (0, 0) when there are no class groups, and
   * otherwise the width of the layout with every group collapsed, and 0.
   */
  lemma SizeHintsAlways(gl: int, sz: Sizes, n: nat, classGroups: seq<Task>)
    requires Inputs(sz, n, classGroups)
    ensures 0 <= Collapsed(classGroups) <= n
    ensures var h := SizeHintsOf(AlwaysGroup, gl, sz, n, classGroups);
      (classGroups == [] ==> h == [0, 0]) &&
      (classGroups != [] ==>
        var c := Cols(sz, n - Collapsed(classGroups));
        h == [c * sz.maxWidth, 0])
  {
    StartBudget(AlwaysGroup, gl, sz, n, classGroups);
    if classGroups != [] {
      AlwaysCollapsesAll(gl, sz, n, classGroups);
    } else {
      var s := SettingOf(AlwaysGroup, gl, sz, n);
      assert Collect(s, [], 0, Init(s)).hints == [];
    }
  }

  /** With class groups, ALWAYS records exactly one range: that of every group collapsed. */
  lemma AlwaysCollapsesAll(gl: int, sz: Sizes, n: nat, classGroups: seq<Task>)
    requires Inputs(sz, n, classGroups) && classGroups != [] && 0 <= Collapsed(classGroups) <= n
    ensures var c := Cols(sz, n - Collapsed(classGroups));
      SizeHintsOf(AlwaysGroup, gl, sz, n, classGroups) == [c * sz.maxWidth, 0]
  {
    StartBudget(AlwaysGroup, gl, sz, n, classGroups);
    var s := SettingOf(AlwaysGroup, gl, sz, n);
    var left := n - Collapsed(classGroups);
    CollectAlways(s, PickOrder(classGroups), 0, left);
    ColumnTableAt(sz, n, left);
    var c := s.columns[left];
    assert Collect(s, PickOrder(classGroups), 0, Init(s)).hints == [c * s.maxWidth, c * s.limit];
  }

  /**
   * Entry k of the list is the width of some layout's columns: the largest
   * button width at even k (the upper end of a pair), the limit at odd k
   * (the lower end).
   */
  ghost predicate IsEntry(s: Setting, k: int, v: int)
  {
    exists m :: 0 <= m < |s.columns| && v == s.columns[m] * (if k % 2 == 0 then s.maxWidth else s.limit)
  }

  ghost predicate FromColumns(s: Setting, h: seq<int>)
  {
    forall k :: 0 <= k < |h| ==> IsEntry(s, k, h[k])
  }

  lemma RecordFromColumns(s: Setting, r: Ranges, m: int)
    requires 0 <= m < |s.columns| && FromColumns(s, r.hints) && |r.hints| % 2 == 0
    requires s.columns[m] * s.maxWidth >= r.lowest ==> r.hints != []
    ensures var r' := Record(r, s.columns[m], s.maxWidth, s.limit);
      FromColumns(s, r'.hints) && |r'.hints| % 2 == 0
  {
    var c := s.columns[m];
    var r' := Record(r, c, s.maxWidth, s.limit);
    forall k | 0 <= k < |r'.hints| ensures IsEntry(s, k, r'.hints[k]) {
      if k < |r.hints| - 1 || (k == |r.hints| - 1 && c * s.maxWidth < r.lowest) {
        assert r'.hints[k] == r.hints[k];
      } else if k == |r.hints| - 1 || k == |r.hints| + 1 {
        assert r'.hints[k] == c * s.limit;
      } else {
        assert r'.hints[k] == c * s.maxWidth;
      }
    }
  }

  lemma {:induction false} CollectFromColumns(s: Setting, order: seq<Task>, grouped: int, r: Ranges)
    requires Budget(s, order, grouped) && EmptyAtStart(r) && FromColumns(s, r.hints) && |r.hints| % 2 == 0
    ensures FromColumns(s, Collect(s, order, grouped, r).hints)
    decreases |order|
  {
    if order != [] && s.policy != NeverGroup {
      BudgetTail(s, order, grouped);
      var grouped' := grouped + WindowCount(order[0]) - 1;
      var m := |s.columns| - 1 - grouped';
      var cols := s.columns[m];
      var r' := if cols != r.lastCols && (s.policy == AutoGroup || |order| == 1)
                then Record(r, cols, s.maxWidth, s.limit) else r;
      if cols != r.lastCols && (s.policy == AutoGroup || |order| == 1) {
        RecordFromColumns(s, r, m);
      }
      CollectFromColumns(s, order[1..], grouped', r');
    }
  }

  /**
   * Every hint but the final 0 is a layout's column count times the largest
   * button width (at even positions) or times the grouping limit (at odd
   * positions), for some number of buttons between 0 and n.
   */
  lemma SizeHintsFromColumns(policy: Grouping, gl: int, sz: Sizes, n: nat, classGroups: seq<Task>)
    requires Inputs(sz, n, classGroups)
    ensures var h := SizeHintsOf(policy, gl, sz, n, classGroups);
      forall k :: 0 <= k < |h| - 1 ==>
        exists m :: 0 <= m <= n && h[k] == Cols(sz, m) * (if k % 2 == 0 then sz.maxWidth else gl)
  {
    StartBudget(policy, gl, sz, n, classGroups);
    var s := SettingOf(policy, gl, sz, n);
    InitFromColumns(s);
    CollectFromColumns(s, PickOrder(classGroups), 0, Init(s));
    FinishEntries(sz, n, s, Collect(s, PickOrder(classGroups), 0, Init(s)).hints);
  }

  lemma InitFromColumns(s: Setting)
    requires |s.columns| >= 1
    ensures FromColumns(s, Init(s).hints) && |Init(s).hints| % 2 == 0
  {
    var r0 := Init(s);
    if r0.hints != [] {
      assert IsEntry(s, 0, r0.hints[0]) && IsEntry(s, 1, r0.hints[1]);
    }
  }

  lemma FinishEntries(sz: Sizes, n: nat, s: Setting, h: seq<int>)
    requires sz.maxHeight >= 1 && s.columns == ColumnTable(sz, n) && s.maxWidth == sz.maxWidth
    requires FromColumns(s, h)
    ensures var f := Finish(h);
      forall k :: 0 <= k < |f| - 1 ==>
        exists m :: 0 <= m <= n && f[k] == Cols(sz, m) * (if k % 2 == 0 then sz.maxWidth else s.limit)
  {
    var f := Finish(h);
    forall k | 0 <= k < |f| - 1
      ensures exists m :: 0 <= m <= n && f[k] == Cols(sz, m) * (if k % 2 == 0 then sz.maxWidth else s.limit)
    {
      if h == [] {
        assert f[k] == Cols(sz, 0) * sz.maxWidth;
      } else {
        assert f[k] == h[k] && IsEntry(s, k, h[k]);
        var m :| 0 <= m < |s.columns| && h[k] == s.columns[m] * (if k % 2 == 0 then s.maxWidth else s.limit);
        ColumnTableAt(sz, n, m);
      }
    }
  }

  /** Lowering the last entry keeps the list ordered and disjoint. */
  lemma LowerLastKeepsOrder(h: seq<int>, v: int)
    requires h != [] && NonIncreasing(h) && Disjoint(h) && v <= h[|h| - 1]
    ensures NonIncreasing(h[..|h| - 1] + [v]) && Disjoint(h[..|h| - 1] + [v])
  {
    var h' := h[..|h| - 1] + [v];
    forall i, j | 0 <= i < j < |h'| ensures h'[i] >= h'[j] {
      assert h'[i] == h[i];
      if j < |h| - 1 { assert h'[j] == h[j]; }
    }
    forall i, j | 0 <= i < j < |h'| - 1 && j % 2 == 0 && i == j - 1 ensures h'[j] < h'[i] {
      assert h'[i] == h[i] && h'[j] == h[j];
    }
  }

  /** A new pair below the last recorded entry keeps the list ordered and disjoint. */
  lemma AppendPairKeepsOrder(h: seq<int>, lowest: int, hi: int, lo: int)
    requires |h| % 2 == 0 && NonIncreasing(h) && Disjoint(h)
    requires h != [] ==> h[|h| - 1] == lowest
    requires lo <= hi < lowest
    ensures NonIncreasing(h + [hi, lo]) && Disjoint(h + [hi, lo])
  {
    var h' := h + [hi, lo];
    forall i, j | 0 <= i < j < |h'| ensures h'[i] >= h'[j] {
      if j < |h| {
        assert h'[i] == h[i] && h'[j] == h[j];
      } else if i < |h| {
        assert h'[i] == h[i] >= h[|h| - 1];
      }
    }
    forall i, j | 0 <= i < j < |h'| - 1 && j % 2 == 0 && i == j - 1 ensures h'[j] < h'[i] {
      if j < |h| {
        assert h'[i] == h[i] && h'[j] == h[j];
      }
    }
  }

  /** Collapsing a group shrinks the number of buttons, and so the columns. */
  lemma ColsFollow(sz: Sizes, n1: nat, n2: nat)
    requires sz.maxHeight >= 1 && n1 <= n2
    ensures 0 <= Cols(sz, n1) <= Cols(sz, n2) && Cols(sz, n2) <= n2
  {
    if n1 > 0 {
      LayoutColsMonotone(sz.width, sz.height, sz.maxHeight, n1, n2);
    }
  }

  lemma FitsInt(cols: int, n: nat, w: int)
    requires 0 <= cols <= n && w >= 0 && n * w < IntMax
    ensures cols * w < IntMax
  {
    MulLeft(cols, n, w);
  }
}

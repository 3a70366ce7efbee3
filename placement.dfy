/**
 * The second half of wnck_tasklist_size_allocate (libwnck/tasklist.c): the
 * visible buttons are assembled from the grouping loop's result, the windows
 * of the groups left uncollapsed, the windows without a class group and the
 * startup sequences, and sorted with wnck_task_compare; the i-th is then
 * given its slice of the allocation, every window task learns its row and
 * column, and the window list is rebuilt in button order.
 */
module Placement {
  import opened Base
  import opened Tasks
  import opened Scoring
  import opened Geometry
  import opened SizeHints
  import opened Allocation

  /** A GtkAllocation: origin and size, in pixels. */
  datatype Rect = Rect(x: int, y: int, width: int, height: int)

  /** The row and column a task records (task->row, task->col). */
  datatype Cell = Cell(row: int, col: int)

  // ---------------------------------------------------------------------
  // Lists built by concatenation

  /** The lists f gives for the elements of s, one after the other. */
  function ConcatMap(f: Task -> seq<Task>, s: seq<Task>): seq<Task>
  {
    if s == [] then [] else ConcatMap(f, s[..|s| - 1]) + f(s[|s| - 1])
  }

  lemma {:induction false} ConcatMapAppend(f: Task -> seq<Task>, a: seq<Task>, b: seq<Task>)
    ensures ConcatMap(f, a + b) == ConcatMap(f, a) + ConcatMap(f, b)
    decreases |b|
  {
    if b == [] {
      assert a + b == a;
    } else {
      var c := b[..|b| - 1];
      assert (a + b)[..|a + b| - 1] == a + c;
      ConcatMapAppend(f, a, c);
    }
  }

  /** What ConcatMap collects depends only on which elements it is given, not on their order. */
  lemma {:induction false} ConcatMapPermutation(f: Task -> seq<Task>, a: seq<Task>, b: seq<Task>)
    requires multiset(a) == multiset(b)
    ensures multiset(ConcatMap(f, a)) == multiset(ConcatMap(f, b))
    decreases |a|
  {
    if a != [] {
      var x := a[|a| - 1];
      var a' := a[..|a| - 1];
      assert a == a' + [x];
      assert x in multiset(b);
      var j :| 0 <= j < |b| && b[j] == x;
      var rest := b[..j] + b[j + 1..];
      SplitMultiset(b, j);
      MultisetCancel(multiset(a'), multiset(rest), x);
      ConcatMapPermutation(f, a', rest);
      ConcatMapSplit(f, b, j);
      ConcatMapAppend(f, a', [x]);
      assert [x][..0] == [];
    }
  }

  lemma SplitMultiset(b: seq<Task>, j: nat)
    requires j < |b|
    ensures multiset(b) == multiset(b[..j] + b[j + 1..]) + multiset{b[j]}
  {
    assert b == b[..j] + [b[j]] + b[j + 1..];
  }

  lemma MultisetCancel(m1: multiset<Task>, m2: multiset<Task>, x: Task)
    requires m1 + multiset{x} == m2 + multiset{x}
    ensures m1 == m2
  {
    assert forall y :: m1[y] == (m1 + multiset{x})[y] - multiset{x}[y];
    assert forall y :: m2[y] == (m2 + multiset{x})[y] - multiset{x}[y];
  }

  /** Taking element j out of the list takes its list out of what ConcatMap collects. */
  lemma ConcatMapSplit(f: Task -> seq<Task>, b: seq<Task>, j: nat)
    requires j < |b|
    ensures multiset(ConcatMap(f, b)) == multiset(ConcatMap(f, b[..j] + b[j + 1..])) + multiset(f(b[j]))
  {
    var b1, b2 := b[..j], b[j + 1..];
    SplitAt(b, j);
    ConcatMapAround(f, b1, b[j], b2);
    ConcatMapAppend(f, b1, b2);
  }

  lemma SplitAt(b: seq<Task>, j: nat)
    requires j < |b|
    ensures b == b[..j] + [b[j]] + b[j + 1..]
  {
  }

  lemma ConcatMapAround(f: Task -> seq<Task>, b1: seq<Task>, x: Task, b2: seq<Task>)
    ensures ConcatMap(f, b1 + [x] + b2) == ConcatMap(f, b1) + f(x) + ConcatMap(f, b2)
  {
    ConcatMapAppend(f, b1 + [x], b2);
    ConcatMapAppend(f, b1, [x]);
    ConcatMapSingle(f, x);
  }

  /** task->windows: the windows of a class-group task, none for other tasks. */
  function WindowsOf(t: Task): (ws: seq<Task>)
    ensures |ws| == WindowCount(t)
  {
    if t.GroupTask? then t.windows else []
  }

  /** The windows of the given class groups, group after group. */
  function Flatten(gs: seq<Task>): seq<Task>
  {
    ConcatMap(WindowsOf, gs)
  }

  /** Flattening keeps every window of every group. */
  lemma {:induction false} FlattenLength(gs: seq<Task>)
    ensures |Flatten(gs)| == TotalWindows(gs)
    decreases |gs|
  {
    if gs != [] {
      var last := gs[|gs| - 1];
      FlattenLength(gs[..|gs| - 1]);
      assert gs == gs[..|gs| - 1] + [last];
      TotalWindowsAppend(gs[..|gs| - 1], [last]);
      assert [last][1..] == [];
    }
  }

  // ---------------------------------------------------------------------
  // The visible buttons (tasklist.c, after the grouping loop)

  /**
   * The visible list: the buttons the collapsed groups leave, a copy of the
   * windows of every group left, the windows without a class group and the
   * startup sequences, then sorted with wnck_task_compare.  It holds those
   * tasks, each as often as it was given, in task order.
   */
  method AssembleVisible(shown: seq<Task>, ungrouped: seq<Task>, noClass: seq<Task>, startups: seq<Task>)
    returns (visible: seq<Task>)
    ensures visible == Sort(ByTaskOrder, shown + Flatten(ungrouped) + noClass + startups)
    ensures |visible| == |shown| + TotalWindows(ungrouped) + |noClass| + |startups|
  {
    visible := shown;
    var j := 0;
    while j < |ungrouped|
      invariant j <= |ungrouped|
      invariant visible == shown + Flatten(ungrouped[..j])
    {
      assert ungrouped[..j + 1][..j] == ungrouped[..j];
      visible := visible + WindowsOf(ungrouped[j]);
      j := j + 1;
    }
    assert ungrouped[..j] == ungrouped;
    j := 0;
    while j < |noClass|
      invariant j <= |noClass|
      invariant visible == shown + Flatten(ungrouped) + noClass[..j]
    {
      assert noClass[..j + 1] == noClass[..j] + [noClass[j]];
      visible := visible + [noClass[j]];
      j := j + 1;
    }
    assert noClass[..j] == noClass;
    visible := visible + startups;
    visible := Sort(ByTaskOrder, visible);
    FlattenLength(ungrouped);
  }

  // ---------------------------------------------------------------------
  // The placement loop

  /** The cell of the i-th visible button: row i % rows, column i / rows mirrored for RTL. */
  function CellOf(grid: Grid, rtl: bool, i: nat): Cell
    requires grid.rows >= 1
  {
    Cell(CellRow(i, grid.rows), PlacedCol(i, grid.rows, grid.cols, rtl))
  }

  /** The slice of the allocation the i-th visible button is given. */
  function ButtonRect(alloc: Rect, grid: Grid, rtl: bool, i: nat): Rect
    requires grid.rows >= 1 && grid.cols >= 1
  {
    var c := CellOf(grid, rtl, i);
    Rect(alloc.x + CellStart(alloc.width, c.col, grid.cols), alloc.y + CellStart(alloc.height, c.row, grid.rows),
         CellWidth(alloc.width, c.col, grid.cols), CellWidth(alloc.height, c.row, grid.rows))
  }

  /**
   * What a visible button adds to the rebuilt window list: the windows of a
   * group button, the task itself for a window button, nothing for a
   * startup sequence.
   */
  function Contribution(t: Task): seq<Task>
  {
    if t.StartupTask? then [] else if WindowCount(t) > 1 then WindowsOf(t) else [t]
  }

  /** The rebuilt window list (windows_sorted) for the given buttons. */
  function Contributions(visible: seq<Task>): seq<Task>
  {
    ConcatMap(Contribution, visible)
  }

  /** The row and column record after `ws` are all told they are in cell c. */
  function SetAll(cells: map<TaskKey, Cell>, ws: seq<Task>, c: Cell): map<TaskKey, Cell>
  {
    if ws == [] then cells else SetAll(cells, ws[..|ws| - 1], c)[Key(ws[|ws| - 1]) := c]
  }

  /** A window or group button records its cell, and so does every window it holds. */
  function PlaceOne(cells: map<TaskKey, Cell>, t: Task, c: Cell): map<TaskKey, Cell>
  {
    if t.StartupTask? then cells else SetAll(cells[Key(t) := c], WindowsOf(t), c)
  }

  /** The row and column record once the given buttons are placed in order. */
  function Placed(cells: map<TaskKey, Cell>, visible: seq<Task>, grid: Grid, rtl: bool): map<TaskKey, Cell>
    requires grid.rows >= 1
  {
    if visible == [] then cells
    else PlaceOne(Placed(cells, visible[..|visible| - 1], grid, rtl), visible[|visible| - 1], CellOf(grid, rtl, |visible| - 1))
  }

  /**
   * The cell of the i-th button and the slice of the allocation it is
   * given: total * col / cols to total * (col + 1) / cols across and the same
   * down, offset by the allocation's origin.
   */
  method ChildAllocation(alloc: Rect, grid: Grid, rtl: bool, i: nat) returns (row: int, col: int, child: Rect)
    requires grid.rows >= 1 && grid.cols >= 1
    ensures Cell(row, col) == CellOf(grid, rtl, i)
    ensures child == ButtonRect(alloc, grid, rtl, i)
  {
    row := i % grid.rows;
    col := i / grid.rows;
    if rtl {
      col := grid.cols - col - 1;
    }
    var x := CDiv(alloc.width * col, grid.cols);
    var y := CDiv(alloc.height * row, grid.rows);
    var width := CDiv(alloc.width * (col + 1), grid.cols) - x;
    var height := CDiv(alloc.height * (row + 1), grid.rows) - y;
    child := Rect(alloc.x + x, alloc.y + y, width, height);
  }

  /** The inner loop of the placement: every window of a group button records the group's cell. */
  method MarkWindows(cells: map<TaskKey, Cell>, ws: seq<Task>, c: Cell) returns (placed: map<TaskKey, Cell>)
    ensures placed == SetAll(cells, ws, c)
  {
    placed := cells;
    var j := 0;
    while j < |ws|
      invariant j <= |ws|
      invariant placed == SetAll(cells, ws[..j], c)
    {
      assert ws[..j + 1][..j] == ws[..j];
      placed := placed[Key(ws[j]) := c];
      j := j + 1;
    }
    assert ws[..j] == ws;
  }

  /** One more button placed: its contribution is appended and its records are written. */
  lemma PlaceStep(cells: map<TaskKey, Cell>, visible: seq<Task>, grid: Grid, rtl: bool, i: nat)
    requires grid.rows >= 1 && i < |visible|
    ensures Contributions(visible[..i + 1]) == Contributions(visible[..i]) + Contribution(visible[i])
    ensures Placed(cells, visible[..i + 1], grid, rtl) ==
            PlaceOne(Placed(cells, visible[..i], grid, rtl), visible[i], CellOf(grid, rtl, i))
  {
    assert visible[..i + 1][..i] == visible[..i];
  }

  /**
   * The placement loop: every visible button gets its slice of the
   * allocation, its row and column and those of its windows are recorded,
   * and its windows (or itself) are appended to the rebuilt window list.
   */
  method PlaceButtons(alloc: Rect, grid: Grid, rtl: bool, visible: seq<Task>, cells: map<TaskKey, Cell>)
    returns (rects: seq<Rect>, windowsSorted: seq<Task>, placed: map<TaskKey, Cell>)
    requires visible == [] || (grid.rows >= 1 && grid.cols >= 1)
    ensures |rects| == |visible|
    ensures forall i :: 0 <= i < |visible| ==> rects[i] == ButtonRect(alloc, grid, rtl, i)
    ensures windowsSorted == Contributions(visible)
    ensures visible != [] ==> placed == Placed(cells, visible, grid, rtl)
    ensures visible == [] ==> placed == cells
  {
    rects, windowsSorted, placed := [], [], cells;
    if visible == [] {
      return;
    }
    var i := 0;
    while i < |visible|
      invariant i <= |visible|
      invariant |rects| == i
      invariant forall j :: 0 <= j < i ==> rects[j] == ButtonRect(alloc, grid, rtl, j)
      invariant windowsSorted == Contributions(visible[..i])
      invariant placed == Placed(cells, visible[..i], grid, rtl)
    {
      var task := visible[i];
      var row, col, child := ChildAllocation(alloc, grid, rtl, i);
      rects := rects + [child];
      PlaceStep(cells, visible, grid, rtl, i);
      if !task.StartupTask? {
        if WindowCount(task) > 1 {
          windowsSorted := windowsSorted + task.windows;
        } else {
          windowsSorted := windowsSorted + [task];
        }
        var c := Cell(row, col);
        placed := placed[Key(task) := c];
        placed := MarkWindows(placed, WindowsOf(task), c);
      }
      i := i + 1;
    }
    assert visible[..i] == visible;
  }

  // ---------------------------------------------------------------------
  // What the placement records

  /** The keys of the given tasks. */
  function Keys(ws: seq<Task>): set<TaskKey>
  {
    if ws == [] then {} else Keys(ws[..|ws| - 1]) + {Key(ws[|ws| - 1])}
  }

  /** Telling windows their cell changes their records and no others. */
  lemma {:induction false} SetAllEffect(cells: map<TaskKey, Cell>, ws: seq<Task>, c: Cell, k: TaskKey)
    ensures k in Keys(ws) ==> k in SetAll(cells, ws, c) && SetAll(cells, ws, c)[k] == c
    ensures k !in Keys(ws) ==>
      (k in SetAll(cells, ws, c) <==> k in cells) && (k in cells ==> SetAll(cells, ws, c)[k] == cells[k])
    decreases |ws|
  {
    if ws != [] {
      SetAllEffect(cells, ws[..|ws| - 1], c, k);
    }
  }

  /** The records a placed button writes: its own and its windows'; none for a startup sequence. */
  function Touched(t: Task): set<TaskKey>
  {
    if t.StartupTask? then {} else {Key(t)} + Keys(WindowsOf(t))
  }

  lemma PlaceOneEffect(cells: map<TaskKey, Cell>, t: Task, c: Cell, k: TaskKey)
    ensures k in Touched(t) ==> k in PlaceOne(cells, t, c) && PlaceOne(cells, t, c)[k] == c
    ensures k !in Touched(t) ==>
      (k in PlaceOne(cells, t, c) <==> k in cells) && (k in cells ==> PlaceOne(cells, t, c)[k] == cells[k])
  {
    if !t.StartupTask? {
      SetAllEffect(cells[Key(t) := c], WindowsOf(t), c, k);
    }
  }

  /** No record is written by two visible buttons. */
  ghost predicate DistinctButtons(visible: seq<Task>)
  {
    forall i, j :: 0 <= i < j < |visible| ==> Touched(visible[i]) !! Touched(visible[j])
  }

  /**
   * When no record is written twice, every placed button, and every window
   * it holds, records the button's own cell.
   */
  lemma {:induction false} PlacedAt(cells: map<TaskKey, Cell>, visible: seq<Task>, grid: Grid, rtl: bool, i: nat, k: TaskKey)
    requires grid.rows >= 1 && DistinctButtons(visible) && i < |visible| && k in Touched(visible[i])
    ensures k in Placed(cells, visible, grid, rtl) && Placed(cells, visible, grid, rtl)[k] == CellOf(grid, rtl, i)
    decreases |visible|
  {
    var last := |visible| - 1;
    var front := visible[..last];
    PlaceOneEffect(Placed(cells, front, grid, rtl), visible[last], CellOf(grid, rtl, last), k);
    if i < last {
      assert Touched(visible[i]) !! Touched(visible[last]);
      assert DistinctButtons(front) by {
        forall a, b | 0 <= a < b < |front| ensures Touched(front[a]) !! Touched(front[b]) {
          assert front[a] == visible[a] && front[b] == visible[b];
        }
      }
      PlacedAt(cells, front, grid, rtl, i, k);
    }
  }

  /** Records that no visible button writes keep what they held. */
  lemma {:induction false} PlacedElsewhere(cells: map<TaskKey, Cell>, visible: seq<Task>, grid: Grid, rtl: bool, k: TaskKey)
    requires grid.rows >= 1
    requires forall i :: 0 <= i < |visible| ==> k !in Touched(visible[i])
    ensures k in Placed(cells, visible, grid, rtl) <==> k in cells
    ensures k in cells ==> Placed(cells, visible, grid, rtl)[k] == cells[k]
    decreases |visible|
  {
    if visible != [] {
      var last := |visible| - 1;
      var front := visible[..last];
      assert k !in Touched(visible[last]);
      PlaceOneEffect(Placed(cells, front, grid, rtl), visible[last], CellOf(grid, rtl, last), k);
      assert forall i :: 0 <= i < |front| ==> front[i] == visible[i];
      PlacedElsewhere(cells, front, grid, rtl, k);
    }
  }

  // ---------------------------------------------------------------------
  // The slices of the allocation

  /**
   * A button of a grid that holds it lies inside the allocation and is at
   * least an even share of it wide and high.
   */
  lemma ButtonRectInside(alloc: Rect, grid: Grid, rtl: bool, i: nat)
    requires alloc.width >= 0 && alloc.height >= 0 && grid.rows >= 1 && grid.cols >= 1
    requires i < grid.rows * grid.cols
    ensures var r := ButtonRect(alloc, grid, rtl, i);
      alloc.x <= r.x && r.x + r.width <= alloc.x + alloc.width &&
      alloc.y <= r.y && r.y + r.height <= alloc.y + alloc.height &&
      alloc.width / grid.cols <= r.width && alloc.height / grid.rows <= r.height
  {
    var c := CellOf(grid, rtl, i);
    CellInGrid(i, grid.rows, grid.cols, rtl);
    CellsTile(alloc.width, grid.cols);
    CellsTile(alloc.height, grid.rows);
    CellStartMonotone(alloc.width, 0, c.col, grid.cols);
    CellStartMonotone(alloc.width, c.col + 1, grid.cols, grid.cols);
    CellStartMonotone(alloc.height, 0, c.row, grid.rows);
    CellStartMonotone(alloc.height, c.row + 1, grid.rows, grid.rows);
    CellWidthBounds(alloc.width, c.col, grid.cols);
    CellWidthBounds(alloc.height, c.row, grid.rows);
  }

  /** Two buttons of a grid that holds them never overlap. */
  lemma ButtonRectsDisjoint(alloc: Rect, grid: Grid, rtl: bool, i: nat, j: nat)
    requires alloc.width >= 0 && alloc.height >= 0 && grid.rows >= 1 && grid.cols >= 1
    requires i < grid.rows * grid.cols && j < grid.rows * grid.cols && i != j
    ensures var a := ButtonRect(alloc, grid, rtl, i);
      var b := ButtonRect(alloc, grid, rtl, j);
      a.x + a.width <= b.x || b.x + b.width <= a.x || a.y + a.height <= b.y || b.y + b.height <= a.y
  {
    var ci, cj := CellOf(grid, rtl, i), CellOf(grid, rtl, j);
    CellsDistinct(i, j, grid.rows, grid.cols, rtl);
    CellInGrid(i, grid.rows, grid.cols, rtl);
    CellInGrid(j, grid.rows, grid.cols, rtl);
    if ci.col < cj.col {
      CellStartMonotone(alloc.width, ci.col + 1, cj.col, grid.cols);
    } else if cj.col < ci.col {
      CellStartMonotone(alloc.width, cj.col + 1, ci.col, grid.cols);
    } else if ci.row < cj.row {
      CellStartMonotone(alloc.height, ci.row + 1, cj.row, grid.rows);
    } else {
      CellStartMonotone(alloc.height, cj.row + 1, ci.row, grid.rows);
    }
  }

  /**
   * The button one column on, in the same row, starts where this one ends
   * (ends where this one starts, right to left): the buttons of a row abut.
   */
  lemma ButtonRectsAbut(alloc: Rect, grid: Grid, rtl: bool, i: nat)
    requires grid.rows >= 1 && grid.cols >= 1
    ensures var a := ButtonRect(alloc, grid, rtl, i);
      var b := ButtonRect(alloc, grid, rtl, i + grid.rows);
      a.y == b.y && a.height == b.height &&
      (if rtl then b.x + b.width == a.x else a.x + a.width == b.x)
  {
    var rows := grid.rows;
    assert i == (i / rows) * rows + i % rows;
    DivUnique(i + rows, rows, i / rows + 1, i % rows);
    assert (i + rows) % rows == i % rows;
  }

  // ---------------------------------------------------------------------
  // The whole allocation

  /**
   * The visible buttons of an allocation for n buttons: the buttons left by
   * the groups the grouping loop collapses, the windows of the other groups,
   * the windows without a class group and the startup sequences, in task
   * order.
   */
  function Visible(policy: Grouping, gl: int, sz: Sizes, n: nat,
                   classGroups: seq<Task>, noClass: seq<Task>, startups: seq<Task>): seq<Task>
    requires sz.maxHeight >= 1 && AllScored(classGroups)
  {
    var (shown, ungrouped, _) := Grouped(policy, gl, sz, n, classGroups);
    Sort(ByTaskOrder, shown + Flatten(ungrouped) + noClass + startups)
  }

  /** The visible buttons are in task order. */
  lemma VisibleOrdered(policy: Grouping, gl: int, sz: Sizes, n: nat,
                       classGroups: seq<Task>, noClass: seq<Task>, startups: seq<Task>)
    requires sz.maxHeight >= 1 && AllScored(classGroups)
    ensures SortedBy(ByTaskOrder, Visible(policy, gl, sz, n, classGroups, noClass, startups))
  {
    var (shown, ungrouped, _) := Grouped(policy, gl, sz, n, classGroups);
    SortSortedPermutation(ByTaskOrder, shown + Flatten(ungrouped) + noClass + startups);
  }

  /** The sizes the layout works with: the allocation's and the largest button's. */
  function SizesOf(alloc: Rect, maxWidth: int, maxHeight: int): Sizes
  {
    Sizes(alloc.width, alloc.height, maxWidth, maxHeight)
  }

  /** The buttons that are not saved are the collapsed groups' and the other groups' windows. */
  lemma ButtonsLeft(classGroups: seq<Task>, k: nat)
    requires AllScored(classGroups) && k <= |classGroups|
    ensures var q := PickOrder(classGroups)[..k];
      k + TotalWindows(Without(classGroups, q)) == TotalWindows(classGroups) - Collapsed(q)
  {
    WithoutTotalWindows(classGroups, k);
    CollapsedTotal(PickOrder(classGroups)[..k]);
  }

  /**
   * The grouping loop followed by the assembly of the visible list.  Every
   * window being either in one class group or without one, the buttons
   * saved and the buttons shown add up to the windows and startup
   * sequences, so the last layout of the loop is that of the visible
   * buttons.
   */
  method GroupAndAssemble(policy: Grouping, gl: int, sz: Sizes, windows: seq<Task>, classGroups: seq<Task>,
                          noClass: seq<Task>, startups: seq<Task>)
    returns (grid: Grid, visible: seq<Task>)
    requires sz.maxHeight >= 1 && AllScored(classGroups) && Populated(classGroups)
    requires |windows| == TotalWindows(classGroups) + |noClass|
    ensures visible == Visible(policy, gl, sz, |windows| + |startups|, classGroups, noClass, startups)
    ensures grid == Layout(sz.width, sz.height, sz.maxHeight, |visible|)
  {
    var shown, ungrouped, saved;
    shown, ungrouped, saved, grid := GroupingLoop(policy, gl, sz, |windows| + |startups|, classGroups);
    visible := AssembleVisible(shown, ungrouped, noClass, startups);
    ghost var p := PickOrder(classGroups);
    ghost var k := GroupCount(policy, gl, GridTable(sz, |windows| + |startups|), p, 0);
    ButtonsLeft(classGroups, k);
    assert |shown| == k && saved == Collapsed(p[..k]) && ungrouped == Without(classGroups, p[..k]);
    GridAfterRemaining(sz, |windows| + |startups|, saved, |visible|);
  }

  /**
   * wnck_tasklist_size_allocate: grouping with the grouping limit capped at
   * the largest button width, then the visible list, then the placement.
   * The grid of the visible buttons holds each of them in a cell of its own.
   */
  method Allocate(policy: Grouping, groupingLimit: int, maxWidth: int, maxHeight: int, alloc: Rect, rtl: bool,
                  windows: seq<Task>, classGroups: seq<Task>, noClass: seq<Task>, startups: seq<Task>,
                  cells: map<TaskKey, Cell>)
    returns (grid: Grid, visible: seq<Task>, rects: seq<Rect>, windowsSorted: seq<Task>, placed: map<TaskKey, Cell>)
    requires maxHeight >= 1 && AllScored(classGroups) && Populated(classGroups)
    requires |windows| == TotalWindows(classGroups) + |noClass|
    ensures visible == Visible(policy, Min(groupingLimit, maxWidth), SizesOf(alloc, maxWidth, maxHeight),
                               |windows| + |startups|, classGroups, noClass, startups)
    ensures grid == Layout(alloc.width, alloc.height, maxHeight, |visible|)
    ensures visible != [] ==> grid.rows >= 1 && grid.cols >= 1 && |visible| <= grid.rows * grid.cols
    ensures |rects| == |visible|
    ensures forall i :: 0 <= i < |visible| ==> rects[i] == ButtonRect(alloc, grid, rtl, i)
    ensures windowsSorted == Contributions(visible)
    ensures visible != [] ==> placed == Placed(cells, visible, grid, rtl)
    ensures visible == [] ==> placed == cells
    ensures Lists(windows, classGroups, noClass, startups) ==> multiset(windowsSorted) == multiset(windows)
  {
    grid, visible := GroupAndAssemble(policy, Min(groupingLimit, maxWidth), SizesOf(alloc, maxWidth, maxHeight),
                                      windows, classGroups, noClass, startups);
    if visible != [] {
      LayoutCovers(alloc.width, alloc.height, maxHeight, |visible|);
    }
    rects, windowsSorted, placed := PlaceButtons(alloc, grid, rtl, visible, cells);
    if Lists(windows, classGroups, noClass, startups) {
      WindowListRebuilt(policy, Min(groupingLimit, maxWidth), SizesOf(alloc, maxWidth, maxHeight),
                        windows, classGroups, noClass, startups);
    }
  }

  // ---------------------------------------------------------------------
  // Which groups are collapsed, per policy

  /** NEVER collapses no group: every window of every group shows its own button. */
  lemma GroupedNever(gl: int, sz: Sizes, n: nat, classGroups: seq<Task>)
    requires sz.maxHeight >= 1 && AllScored(classGroups)
    ensures Grouped(NeverGroup, gl, sz, n, classGroups) == ([], classGroups, 0)
  {
    assert PickOrder(classGroups)[..0] == [];
  }

  /**
   * ALWAYS collapses every group, whatever the widths: no group is left and
   * every group saves all its windows but one.
   */
  lemma GroupedAlways(gl: int, sz: Sizes, n: nat, classGroups: seq<Task>)
    requires sz.maxHeight >= 1 && AllScored(classGroups)
    ensures var (shown, ungrouped, saved) := Grouped(AlwaysGroup, gl, sz, n, classGroups);
      shown == ShownReversed(PickOrder(classGroups)) && ungrouped == [] &&
      saved == TotalWindows(classGroups) - |classGroups|
  {
    var p := PickOrder(classGroups);
    var k := GroupCount(AlwaysGroup, gl, GridTable(sz, n), p, 0);
    assert Without(classGroups, p[..k]) == [] by {
      WithoutLength(classGroups, k);
    }
    assert ShownReversed(p[..k]) == ShownReversed(p) by {
      assert p[..k] == p;
    }
    assert Collapsed(p[..k]) == TotalWindows(classGroups) - |classGroups| by {
      assert p[..k] == p;
      CollapsedPickOrder(classGroups);
      CollapsedTotal(classGroups);
    }
  }

  // ---------------------------------------------------------------------
  // The rebuilt window list

  ghost predicate AllWindowTasks(s: seq<Task>)
  {
    forall t :: t in s ==> t.WindowTask?
  }

  ghost predicate AllStartupTasks(s: seq<Task>)
  {
    forall t :: t in s ==> t.StartupTask?
  }

  /**
   * The lists of the tasklist as wnck_tasklist_update_lists leaves them: the
   * window tasks, the class-group tasks, each scored and holding windows,
   * the window tasks without a class group and the startup tasks; every
   * window task is in exactly one group or in the no-class list.
   */
  ghost predicate Lists(windows: seq<Task>, classGroups: seq<Task>, noClass: seq<Task>, startups: seq<Task>)
  {
    AllWindowTasks(windows) && AllStartupTasks(startups) &&
    AllScored(classGroups) && Populated(classGroups) &&
    multiset(windows) == multiset(Flatten(classGroups)) + multiset(noClass)
  }

  lemma SubWindows(a: seq<Task>, windows: seq<Task>)
    requires multiset(a) <= multiset(windows) && AllWindowTasks(windows)
    ensures AllWindowTasks(a)
  {
    forall t | t in a ensures t.WindowTask? {
      assert t in multiset(a);
    }
  }

  /** Window buttons add themselves to the window list. */
  lemma {:induction false} ContributionsOfWindows(s: seq<Task>)
    requires AllWindowTasks(s)
    ensures Contributions(s) == s
    decreases |s|
  {
    if s != [] {
      var front := s[..|s| - 1];
      assert forall t :: t in front ==> t in s;
      assert s[|s| - 1] in s;
      ContributionsOfWindows(front);
      assert s == front + [s[|s| - 1]];
    }
  }

  /** Startup buttons add nothing. */
  lemma {:induction false} ContributionsOfStartups(s: seq<Task>)
    requires AllStartupTasks(s)
    ensures Contributions(s) == []
    decreases |s|
  {
    if s != [] {
      var front := s[..|s| - 1];
      assert forall t :: t in front ==> t in s;
      assert s[|s| - 1] in s;
      ContributionsOfStartups(front);
    }
  }

  /** The button a collapsed group leaves adds the group's windows. */
  lemma ShownContribution(g: Task)
    requires WindowCount(g) >= 1 && AllWindowTasks(WindowsOf(g))
    ensures multiset(Contribution(Shown(g))) == multiset(WindowsOf(g))
  {
    if WindowCount(g) == 1 {
      assert g.windows[0] in g.windows;
      assert g.windows == [g.windows[0]];
    }
  }

  lemma ConcatMapSingle(f: Task -> seq<Task>, x: Task)
    ensures ConcatMap(f, [x]) == f(x)
  {
    assert [x][..0] == [];
  }

  /** The buttons of the collapsed groups add the windows of those groups. */
  lemma {:induction false} ShownReversedContributions(q: seq<Task>)
    requires forall t :: t in q ==> WindowCount(t) >= 1
    requires AllWindowTasks(Flatten(q))
    ensures multiset(Contributions(ShownReversed(q))) == multiset(Flatten(q))
    decreases |q|
  {
    if q != [] {
      var front, g := q[..|q| - 1], q[|q| - 1];
      assert Flatten(q) == Flatten(front) + WindowsOf(g);
      assert forall t :: t in front ==> t in q;
      assert g in q;
      ShownReversedContributions(front);
      ShownContribution(g);
      ConcatMapAppend(Contribution, [Shown(g)], ShownReversed(front));
      ConcatMapSingle(Contribution, Shown(g));
    }
  }

  /** The windows of the collapsed groups and of the groups left are the windows of all groups. */
  lemma GroupWindowsSplit(classGroups: seq<Task>, k: nat)
    requires AllScored(classGroups) && k <= |classGroups|
    ensures var q := PickOrder(classGroups)[..k];
      multiset(Flatten(q)) + multiset(Flatten(Without(classGroups, q))) == multiset(Flatten(classGroups))
  {
    var q := PickOrder(classGroups)[..k];
    var w := Without(classGroups, q);
    WithoutPermutes(classGroups, k);
    ConcatMapPermutation(WindowsOf, q + w, classGroups);
    ConcatMapAppend(WindowsOf, q, w);
  }

  /** The parts of the visible list add what they add, whatever the sort does to their order. */
  lemma VisibleContributions(shown: seq<Task>, flat: seq<Task>, noClass: seq<Task>, startups: seq<Task>)
    ensures var all := shown + flat + noClass + startups;
      multiset(Contributions(Sort(ByTaskOrder, all))) ==
      multiset(Contributions(shown)) + multiset(Contributions(flat)) +
      multiset(Contributions(noClass)) + multiset(Contributions(startups))
  {
    var all := shown + flat + noClass + startups;
    SortSortedPermutation(ByTaskOrder, all);
    ConcatMapPermutation(Contribution, Sort(ByTaskOrder, all), all);
    ConcatMapAppend(Contribution, shown + flat + noClass, startups);
    ConcatMapAppend(Contribution, shown + flat, noClass);
    ConcatMapAppend(Contribution, shown, flat);
  }

  /**
   * The window list the allocation rebuilds holds every window task exactly
   * as often as the tasklist's window list did: the windows of a collapsed
   * group come through its button, the other windows each through their own
   * button, and startup sequences add nothing.
   */
  lemma WindowListRebuilt(policy: Grouping, gl: int, sz: Sizes, windows: seq<Task>, classGroups: seq<Task>,
                          noClass: seq<Task>, startups: seq<Task>)
    requires sz.maxHeight >= 1 && Lists(windows, classGroups, noClass, startups)
    ensures multiset(Contributions(Visible(policy, gl, sz, |windows| + |startups|, classGroups, noClass, startups)))
            == multiset(windows)
  {
    var p := PickOrder(classGroups);
    var k := GroupCount(policy, gl, GridTable(sz, |windows| + |startups|), p, 0);
    var q := p[..k];
    var w := Without(classGroups, q);
    VisibleContributions(ShownReversed(q), Flatten(w), noClass, startups);
    GroupWindowsSplit(classGroups, k);
    SubWindows(Flatten(q), windows);
    SubWindows(Flatten(w), windows);
    SubWindows(noClass, windows);
    ContributionsOfWindows(Flatten(w));
    ContributionsOfWindows(noClass);
    ContributionsOfStartups(startups);
    PickOrderPermutes(classGroups);
    PopulatedAll(classGroups);
    assert forall t :: t in q ==> t in p;
    ShownReversedContributions(q);
  }
}

/**
 * Moving between tasks: the scroll-wheel neighbour search of
 * wnck_tasklist_scroll_event, "activate next in group" of libwnck/task.c,
 * and the search for the task of the active window along its transient
 * chain in wnck_tasklist_active_window_changed.
 */
module Navigation {
  import opened Base
  import opened Tasks
  import opened Geometry
  import opened Placement

  // ---------------------------------------------------------------------
  // Scrolling over the window list

  datatype ScrollDirection = ScrollUp | ScrollDown | ScrollLeft | ScrollRight

  /** task->row and task->col: the cell the last allocation gave the task, (0, 0) before any. */
  function CellAt(cells: map<TaskKey, Cell>, t: Task): Cell
  {
    if Key(t) in cells then cells[Key(t)] else Cell(0, 0)
  }

  /** g_list_find on the window list: the first position holding the task. */
  function IndexOfKey(ws: seq<Task>, k: TaskKey): (r: Option<nat>)
    ensures r.Some? ==> r.value < |ws| && Key(ws[r.value]) == k && forall m :: 0 <= m < r.value ==> Key(ws[m]) != k
    ensures r.None? ==> forall m :: 0 <= m < |ws| ==> Key(ws[m]) != k
  {
    if ws == [] then None
    else if Key(ws[0]) == k then Some(0)
    else match IndexOfKey(ws[1..], k)
      case None => None
      case Some(j) => Some(j + 1)
  }

  /** Position j is the nearest at or before i whose cell is c. */
  ghost predicate NearestBefore(ws: seq<Task>, cells: map<TaskKey, Cell>, i: nat, c: Cell, j: nat)
  {
    j <= i < |ws| && CellAt(cells, ws[j]) == c && forall m :: j < m <= i ==> CellAt(cells, ws[m]) != c
  }

  /** Position j is the nearest at or after i whose cell is c. */
  ghost predicate NearestAfter(ws: seq<Task>, cells: map<TaskKey, Cell>, i: nat, c: Cell, j: nat)
  {
    i <= j < |ws| && CellAt(cells, ws[j]) == c && forall m :: i <= m < j ==> CellAt(cells, ws[m]) != c
  }

  /** The walk back along the list (window = window->prev) until a task in cell c. */
  method SearchBackward(ws: seq<Task>, cells: map<TaskKey, Cell>, i: nat, c: Cell) returns (r: Option<nat>)
    requires i < |ws|
    ensures r.Some? ==> NearestBefore(ws, cells, i, c, r.value)
    ensures r.None? ==> forall m :: 0 <= m <= i ==> CellAt(cells, ws[m]) != c
  {
    var j: int := i;
    while j >= 0 && CellAt(cells, ws[j]) != c
      invariant -1 <= j <= i
      invariant forall m :: j < m <= i ==> CellAt(cells, ws[m]) != c
    {
      j := j - 1;
    }
    r := if j < 0 then None else Some(j);
  }

  /** The walk forward along the list (window = window->next) until a task in cell c. */
  method SearchForward(ws: seq<Task>, cells: map<TaskKey, Cell>, i: nat, c: Cell) returns (r: Option<nat>)
    requires i < |ws|
    ensures r.Some? ==> NearestAfter(ws, cells, i, c, r.value)
    ensures r.None? ==> forall m :: i <= m < |ws| ==> CellAt(cells, ws[m]) != c
  {
    var j := i;
    while j < |ws| && CellAt(cells, ws[j]) != c
      invariant i <= j <= |ws|
      invariant forall m :: i <= m < j ==> CellAt(cells, ws[m]) != c
    {
      j := j + 1;
    }
    r := if j == |ws| then None else Some(j);
  }

  function First(ws: seq<Task>): Option<nat> { if ws == [] then None else Some(0) }
  function Last(ws: seq<Task>): Option<nat> { if ws == [] then None else Some(|ws| - 1) }

  /** TASKLIST_GET_MOST_LEFT: the head of the list, its end in right-to-left layout. */
  function MostLeft(ws: seq<Task>, rtl: bool): Option<nat> { if rtl then Last(ws) else First(ws) }
  /** TASKLIST_GET_MOST_RIGHT. */
  function MostRight(ws: seq<Task>, rtl: bool): Option<nat> { if rtl then First(ws) else Last(ws) }

  /**
   * wnck_tasklist_scroll_event: the position of the window list whose task
   * the scroll activates, if any.  Up and down step along the list; left
   * and right look for the nearest task in the same row and the neighbouring
   * column, searching towards that side, and fall back to the far end of the
   * list.  With no active task listed, a pending activation swallows the
   * event, and otherwise the scroll starts from an end of the list.
   */
  method Scroll(ws: seq<Task>, cells: map<TaskKey, Cell>, active: Option<TaskKey>, activatePending: bool,
                rtl: bool, dir: ScrollDirection) returns (target: Option<nat>)
    ensures target.Some? ==> target.value < |ws|
    ensures var found := if active.Some? then IndexOfKey(ws, active.value) else None;
      (found.None? && activatePending ==> target.None?) &&
      (found.None? && !activatePending ==>
         target == (match dir
                    case ScrollUp => Last(ws)
                    case ScrollDown => First(ws)
                    case ScrollLeft => MostRight(ws, rtl)
                    case ScrollRight => MostLeft(ws, rtl))) &&
      (found.Some? ==> var i := found.value; var here := CellAt(cells, ws[i]);
         (dir == ScrollUp ==> target == if i > 0 then Some(i - 1) else None) &&
         (dir == ScrollDown ==> target == if i + 1 < |ws| then Some(i + 1) else None) &&
         (dir == ScrollLeft ==> var c := Cell(here.row, here.col - 1);
            target.Some? &&
            (if rtl then NearestAfter(ws, cells, i, c, target.value) ||
                         (target == MostLeft(ws, rtl) && forall m :: i <= m < |ws| ==> CellAt(cells, ws[m]) != c)
             else NearestBefore(ws, cells, i, c, target.value) ||
                  (target == MostLeft(ws, rtl) && forall m :: 0 <= m <= i ==> CellAt(cells, ws[m]) != c))) &&
         (dir == ScrollRight ==> var c := Cell(here.row, here.col + 1);
            target.Some? &&
            (if rtl then NearestBefore(ws, cells, i, c, target.value) ||
                         (target == MostRight(ws, rtl) && forall m :: 0 <= m <= i ==> CellAt(cells, ws[m]) != c)
             else NearestAfter(ws, cells, i, c, target.value) ||
                  (target == MostRight(ws, rtl) && forall m :: i <= m < |ws| ==> CellAt(cells, ws[m]) != c))))
  {
    var found := if active.Some? then IndexOfKey(ws, active.value) else None;
    var row, col := 0, 0;
    if found.Some? {
      var here := CellAt(cells, ws[found.value]);
      row, col := here.row, here.col;
    } else if activatePending {
      return None;
    }
    match dir
    case ScrollUp =>
      target := if found.None? then Last(ws) else if found.value > 0 then Some(found.value - 1) else None;
    case ScrollDown =>
      target := if found.None? then First(ws) else if found.value + 1 < |ws| then Some(found.value + 1) else None;
    case ScrollLeft =>
      if found.None? {
        target := MostRight(ws, rtl);
      } else {
        if rtl {
          target := SearchForward(ws, cells, found.value, Cell(row, col - 1));
        } else {
          target := SearchBackward(ws, cells, found.value, Cell(row, col - 1));
        }
        if target.None? {
          target := MostLeft(ws, rtl);
        }
      }
    case ScrollRight =>
      if found.None? {
        target := MostLeft(ws, rtl);
      } else {
        if rtl {
          target := SearchBackward(ws, cells, found.value, Cell(row, col + 1));
        } else {
          target := SearchForward(ws, cells, found.value, Cell(row, col + 1));
        }
        if target.None? {
          target := MostRight(ws, rtl);
        }
      }
  }

  /** The nearest match in a direction is unique. */
  lemma NearestAfterUnique(ws: seq<Task>, cells: map<TaskKey, Cell>, i: nat, c: Cell, j: nat, k: nat)
    requires NearestAfter(ws, cells, i, c, j) && NearestAfter(ws, cells, i, c, k)
    ensures j == k
  {
  }

  lemma NearestBeforeUnique(ws: seq<Task>, cells: map<TaskKey, Cell>, i: nat, c: Cell, j: nat, k: nat)
    requires NearestBefore(ws, cells, i, c, j) && NearestBefore(ws, cells, i, c, k)
    ensures j == k
  {
  }

  /** The window list as the allocation leaves it when every button is one task: task i in cell i. */
  ghost predicate OnGrid(ws: seq<Task>, cells: map<TaskKey, Cell>, grid: Grid, rtl: bool)
  {
    grid.rows >= 1 && forall m :: 0 <= m < |ws| ==> CellAt(cells, ws[m]) == CellOf(grid, rtl, m)
  }

  /** Two positions in the same row of the grid are a whole number of columns apart. */
  lemma SameRowApart(rows: int, i: nat, m: nat)
    requires rows >= 1 && i < m < i + rows
    ensures m % rows != i % rows
  {
    var q, q' := i / rows, m / rows;
    assert i == q * rows + i % rows;
    assert m == q' * rows + m % rows;
    var d := q' - q;
    assert m - i == d * rows + (m % rows - i % rows);
    if d >= 1 {
      MulLeft(1, d, rows);
    } else {
      MulLeft(d, 0, rows);
    }
  }

  lemma NextColumnAt(rows: int, i: nat)
    requires rows >= 1
    ensures (i + rows) % rows == i % rows && (i + rows) / rows == i / rows + 1
  {
    var q, r := i / rows, i % rows;
    assert i == q * rows + r;
    assert (q + 1) * rows == q * rows + rows;
    DivUnique(i + rows, rows, q + 1, r);
    assert i + rows == rows * ((i + rows) / rows) + (i + rows) % rows;
  }

  /**
   * On the grid the allocation lays out, the nearest task one column to
   * the right (left in right-to-left layout) in the same row is exactly one
   * column of buttons further along the list.
   */
  lemma ScrollFindsNextColumn(ws: seq<Task>, cells: map<TaskKey, Cell>, grid: Grid, rtl: bool, i: nat)
    requires OnGrid(ws, cells, grid, rtl) && i + grid.rows < |ws|
    ensures var here := CellAt(cells, ws[i]);
      NearestAfter(ws, cells, i, Cell(here.row, if rtl then here.col - 1 else here.col + 1), i + grid.rows)
  {
    var rows := grid.rows;
    var here := CellAt(cells, ws[i]);
    var c := Cell(here.row, if rtl then here.col - 1 else here.col + 1);
    NextColumnAt(rows, i);
    assert CellAt(cells, ws[i + rows]) == c;
    forall m | i <= m < i + rows ensures CellAt(cells, ws[m]) != c {
      if m > i {
        SameRowApart(rows, i, m);
      }
    }
  }

  /** The other side: one column of buttons back along the list. */
  lemma ScrollFindsPreviousColumn(ws: seq<Task>, cells: map<TaskKey, Cell>, grid: Grid, rtl: bool, i: nat)
    requires OnGrid(ws, cells, grid, rtl) && grid.rows <= i < |ws|
    ensures var here := CellAt(cells, ws[i]);
      NearestBefore(ws, cells, i, Cell(here.row, if rtl then here.col + 1 else here.col - 1), i - grid.rows)
  {
    var rows := grid.rows;
    var here := CellAt(cells, ws[i]);
    var c := Cell(here.row, if rtl then here.col + 1 else here.col - 1);
    NextColumnAt(rows, i - rows);
    assert CellAt(cells, ws[i - rows]) == c;
    forall m | i - rows < m <= i ensures CellAt(cells, ws[m]) != c {
      if m < i {
        SameRowApart(rows, m, i);
      }
    }
  }

  // ---------------------------------------------------------------------
  // Activating the next window of a group

  /** wnck_window_is_most_recently_activated on a window task of the group. */
  predicate Recent(t: Task, mostRecent: Option<nat>)
  {
    t.WindowTask? && mostRecent == Some(t.win.xid)
  }

  /** Position k follows a most recently activated window and is not one itself. */
  ghost predicate Follows(ws: seq<Task>, mostRecent: Option<nat>, k: nat)
  {
    k < |ws| && !Recent(ws[k], mostRecent) && exists j :: 0 <= j < k && Recent(ws[j], mostRecent)
  }

  /**
   * wnck_tasklist_activate_next_in_class_group: the window to activate is
   * the first one that follows the most recently activated window, or the
   * group's first window when there is none (no window of the group was
   * active, or only the last one).
   */
  method NextInGroup(ws: seq<Task>, mostRecent: Option<nat>) returns (r: Option<nat>)
    ensures r.None? <==> ws == []
    ensures r.Some? ==> r.value < |ws|
    ensures r.Some? && r.value > 0 ==>
      Follows(ws, mostRecent, r.value) && forall m :: 0 <= m < r.value ==> !Follows(ws, mostRecent, m)
    ensures r == Some(0) ==> forall m :: 0 <= m < |ws| ==> !Follows(ws, mostRecent, m)
  {
    var activateNext := false;
    r := None;
    var i := 0;
    while i < |ws|
      invariant 0 <= i <= |ws|
      invariant activateNext <==> exists j :: 0 <= j < i && Recent(ws[j], mostRecent)
      invariant forall m :: 0 <= m < i ==> !Follows(ws, mostRecent, m)
    {
      if Recent(ws[i], mostRecent) {
        activateNext := true;
      } else if activateNext {
        r := Some(i);
        return;
      }
      i := i + 1;
    }
    if ws != [] {
      r := Some(0);
    }
  }

  /** At most one window of the group is the most recently activated one (windows are distinct). */
  ghost predicate SingleRecent(ws: seq<Task>, mostRecent: Option<nat>, j: nat)
  {
    j < |ws| && Recent(ws[j], mostRecent) && forall m :: 0 <= m < |ws| && m != j ==> !Recent(ws[m], mostRecent)
  }

  /** With one active window, "next in group" is round robin: the one after it, wrapping to the first. */
  lemma NextInGroupRoundRobin(ws: seq<Task>, mostRecent: Option<nat>, j: nat, r: nat)
    requires SingleRecent(ws, mostRecent, j) && r < |ws|
    requires r > 0 ==> Follows(ws, mostRecent, r) && forall m :: 0 <= m < r ==> !Follows(ws, mostRecent, m)
    requires r == 0 ==> forall m :: 0 <= m < |ws| ==> !Follows(ws, mostRecent, m)
    ensures r == (j + 1) % |ws|
  {
    if j + 1 < |ws| {
      assert Follows(ws, mostRecent, j + 1);
      if r > 0 {
        assert !Follows(ws, mostRecent, j + 1) || r <= j + 1;
      }
    }
  }

  // ---------------------------------------------------------------------
  // The task of the active window

  /** The transient-for relation of the screen's windows, by window id. */
  function Transient(tr: map<nat, nat>, x: nat): Option<nat>
  {
    if x in tr then Some(tr[x]) else None
  }

  /** The k-th window along the transient chain starting at a. */
  function Nth(tr: map<nat, nat>, a: nat, k: nat): Option<nat>
  {
    if k == 0 then Some(a)
    else match Nth(tr, a, k - 1)
      case None => None
      case Some(x) => Transient(tr, x)
  }

  /**
   * The loop of wnck_tasklist_active_window_changed as written, run for at
   * most `fuel` steps from a window `current` that has no task; None when
   * the fuel runs out.  The cycle guard compares only with the initial
   * window.
   */
  function StepsAsWritten(hash: set<nat>, tr: map<nat, nat>, initial: nat, current: nat, fuel: nat): Option<Option<nat>>
    decreases fuel
  {
    if fuel == 0 then None
    else match Transient(tr, current)
      case None => Some(None)
      case Some(next) =>
        if next in hash then Some(Some(next))
        else if next == initial then Some(None)
        else StepsAsWritten(hash, tr, initial, next, fuel - 1)
  }

  function FindActiveTaskAsWritten(hash: set<nat>, tr: map<nat, nat>, active: Option<nat>, fuel: nat): Option<Option<nat>>
  {
    match active
    case None => Some(None)
    case Some(a) => if a in hash then Some(Some(a)) else StepsAsWritten(hash, tr, a, a, fuel)
  }

  /**
   * A transient cycle that does not pass through the active window keeps
   * the loop going for ever: window 1 is transient for 2, and 2 and 3 are
   * transient for each other, none with a task.
   */
  lemma {:induction false} AsWrittenCycleDiverges(fuel: nat)
    ensures StepsAsWritten({}, map[1 := 2, 2 := 3, 3 := 2], 1, 2, fuel) == None
    ensures StepsAsWritten({}, map[1 := 2, 2 := 3, 3 := 2], 1, 3, fuel) == None
  {
    if fuel > 0 {
      AsWrittenCycleDiverges(fuel - 1);
    }
  }

  lemma AsWrittenNeverAnswers(fuel: nat)
    ensures FindActiveTaskAsWritten({}, map[1 := 2, 2 := 3, 3 := 2], Some(1), fuel) == None
  {
    if fuel > 0 {
      AsWrittenCycleDiverges(fuel - 1);
    }
  }

  /** Position k of the chain holds a window with a task, and none before it does. */
  ghost predicate FirstWithTask(hash: set<nat>, tr: map<nat, nat>, a: nat, k: nat, x: nat)
  {
    Nth(tr, a, k) == Some(x) && x in hash &&
    forall m :: 0 <= m < k && Nth(tr, a, m).Some? ==> Nth(tr, a, m).value !in hash
  }

  lemma {:induction false} NthEnds(tr: map<nat, nat>, a: nat, k: nat, k': nat)
    requires Nth(tr, a, k) == None && k <= k'
    ensures Nth(tr, a, k') == None
    decreases k' - k
  {
    if k < k' {
      NthEnds(tr, a, k + 1, k');
    }
  }

  /** Once the chain comes back to a window already seen, it only visits windows already seen. */
  lemma {:induction false} NthCycles(tr: map<nat, nat>, a: nat, path: seq<nat>, k: nat)
    requires |path| >= 1 && forall m {:trigger path[m]} :: 0 <= m < |path| ==> Nth(tr, a, m) == Some(path[m])
    requires Nth(tr, a, |path|).Some? && Nth(tr, a, |path|).value in path
    ensures Nth(tr, a, k).Some? && Nth(tr, a, k).value in path
  {
    if k < |path| {
      assert Nth(tr, a, k) == Some(path[k]);
    } else if k > |path| {
      NthCycles(tr, a, path, k - 1);
      var x := Nth(tr, a, k - 1).value;
      assert Nth(tr, a, k) == Transient(tr, x);
      var m :| 0 <= m < |path| && path[m] == x;
      assert Nth(tr, a, m + 1) == Transient(tr, path[m]);
      if m + 1 < |path| {
        assert Nth(tr, a, m + 1) == Some(path[m + 1]);
      }
    }
  }

  /**
   * The search of wnck_tasklist_active_window_changed with a guard against
   * every transient cycle: the task of the first window, along the chain
   * from the active window, that has one.  A window the walk has already
   * seen ends it.
   */
  method FindActiveTask(hash: set<nat>, tr: map<nat, nat>, active: Option<nat>) returns (task: Option<nat>)
    ensures active.None? ==> task.None?
    ensures task.Some? ==> exists k :: FirstWithTask(hash, tr, active.value, k, task.value)
    ensures task.None? && active.Some? ==>
      forall k :: Nth(tr, active.value, k).Some? ==> Nth(tr, active.value, k).value !in hash
  {
    if active.None? {
      return None;
    }
    var a := active.value;
    var current := a;
    var visited := {a};
    ghost var path := [a];
    task := if a in hash then Some(a) else None;
    while task.None? && current in tr && tr[current] !in visited
      invariant |path| >= 1 && current == path[|path| - 1]
      invariant forall m {:trigger path[m]} :: 0 <= m < |path| ==> Nth(tr, a, m) == Some(path[m])
      invariant forall x :: x in visited <==> x in path
      invariant visited <= tr.Keys + tr.Values + {a}
      invariant task.None? ==> forall m :: 0 <= m < |path| ==> path[m] !in hash
      invariant task.Some? ==> task.value == current && FirstWithTask(hash, tr, a, |path| - 1, current)
      decreases (tr.Keys + tr.Values + {a}) - visited
    {
      var next := tr[current];
      assert Nth(tr, a, |path|) == Some(next);
      path := path + [next];
      visited := visited + {next};
      current := next;
      if current in hash {
        task := Some(current);
        forall m | 0 <= m < |path| - 1 && Nth(tr, a, m).Some? ensures Nth(tr, a, m).value !in hash {
          assert Nth(tr, a, m) == Some(path[m]);
        }
      }
    }
    if task.None? {
      forall k: nat | Nth(tr, a, k).Some? ensures Nth(tr, a, k).value !in hash {
        if k < |path| {
          assert Nth(tr, a, k) == Some(path[k]);
        } else if current !in tr {
          assert Nth(tr, a, |path|) == None;
          if k >= |path| {
            NthEnds(tr, a, |path|, k);
          }
        } else {
          assert Nth(tr, a, |path|) == Some(tr[current]);
          NthCycles(tr, a, path, k);
        }
      }
    } else {
      assert FirstWithTask(hash, tr, a, |path| - 1, task.value);
    }
  }
}

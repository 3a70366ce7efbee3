/**
 * The allocation of the tasklist (libwnck/tasklist.c,
 * wnck_tasklist_size_allocate): class groups are collapsed into one button
 * each, highest score first, for as long as the grouping policy asks for it;
 * the remaining buttons are sorted and laid out on the grid of
 * wnck_tasklist_layout, task i in row i % rows and column i / rows; every
 * button gets its cell, every window task learns its row and column, and the
 * window list is rebuilt in button order.
 */
module Allocation {
  import opened Base
  import opened Tasks
  import opened Scoring
  import opened Geometry
  import opened SizeHints

  /** The layouts of m, m + 1, ..., n buttons. */
  function GridsFrom(sz: Sizes, m: nat, n: nat): (t: seq<Grid>)
    requires sz.maxHeight >= 1 && m <= n + 1
    ensures |t| == n + 1 - m
    decreases n + 1 - m
  {
    if m == n + 1 then [] else [Layout(sz.width, sz.height, sz.maxHeight, m)] + GridsFrom(sz, m + 1, n)
  }

  /** The layouts of 0, 1, ..., n buttons. */
  function GridTable(sz: Sizes, n: nat): (t: seq<Grid>)
    requires sz.maxHeight >= 1
    ensures |t| == n + 1
  {
    GridsFrom(sz, 0, n)
  }

  lemma {:induction false} GridsFromAt(sz: Sizes, m: nat, n: nat, j: nat)
    requires sz.maxHeight >= 1 && m <= j <= n
    ensures GridsFrom(sz, m, n)[j - m] == Layout(sz.width, sz.height, sz.maxHeight, j)
    decreases j - m
  {
    if m < j {
      GridsFromAt(sz, m + 1, n, j);
    }
  }

  lemma GridTableAt(sz: Sizes, n: nat, m: nat)
    requires sz.maxHeight >= 1 && m <= n
    ensures GridTable(sz, n)[m] == Layout(sz.width, sz.height, sz.maxHeight, m)
  {
    GridsFromAt(sz, 0, n, m);
  }

  /** With `saved` of the n buttons saved, the table gives the layout of the m = n - saved that remain. */
  lemma GridAfterRemaining(sz: Sizes, n: nat, saved: int, m: nat)
    requires sz.maxHeight >= 1 && 0 <= saved <= n && m == n - saved
    ensures GridAfter(GridTable(sz, n), saved) == Layout(sz.width, sz.height, sz.maxHeight, m)
  {
    GridTableAt(sz, n, m);
  }

  /**
   * wnck_tasklist_layout as the allocation calls it, for the n buttons there
   * are less the `saved` ones.
   */
  method Relayout(sz: Sizes, n: nat, saved: int) returns (grid: Grid)
    requires sz.maxHeight >= 1 && 0 <= saved <= n
    ensures grid == GridAfter(GridTable(sz, n), saved)
  {
    grid := Layout(sz.width, sz.height, sz.maxHeight, n - saved);
    GridAfterRemaining(sz, n, saved, n - saved);
  }

  /**
   * The condition under which the allocation collapses one more class group,
   * given that one is left: always under ALWAYS, under AUTO while the buttons
   * are narrower than the grouping limit, never under NEVER.
   */
  predicate KeepGrouping(policy: Grouping, limit: int, buttonWidth: int)
  {
    policy == AlwaysGroup || (policy == AutoGroup && buttonWidth < limit)
  }

  /**
   * The button a collapsed class group leaves visible: the group's own
   * button, with the same windows now sorted by their text, when it holds
   * more than one window, and otherwise the button of its only window.
   */
  function Shown(g: Task): (r: Task)
    ensures WindowCount(g) > 1 ==>
      r.GroupTask? && Key(r) == Key(g) && WindowCount(r) == WindowCount(g) &&
      multiset(r.windows) == multiset(g.windows) && SortedBy(ByText, r.windows)
    ensures WindowCount(g) == 1 ==> r == g.windows[0]
  {
    if WindowCount(g) > 1 then
      SortSortedPermutation(ByText, g.windows);
      g.(windows := Sort(ByText, g.windows))
    else if WindowCount(g) == 1 then g.windows[0]
    else g
  }

  // ---------------------------------------------------------------------
  // The grouping loop, over the order in which it takes the groups

  /**
   * The layout the loop works with once `saved` buttons have been saved,
   * grids[m] being the layout of m buttons and |grids| - 1 the number of
   * buttons before grouping (an empty grid outside the table).
   */
  function GridAfter(grids: seq<Grid>, saved: int): Grid
  {
    var m := |grids| - 1 - saved;
    if 0 <= m < |grids| then grids[m] else Grid(0, 0, 0)
  }

  /** The button width the loop compares with the grouping limit. */
  function WidthAfter(grids: seq<Grid>, saved: int): int
  {
    GridAfter(grids, saved).buttonWidth
  }

  /**
   * The number of groups the grouping loop collapses when it takes them in
   * the given order, `saved` buttons having been saved already: it goes on
   * while a group is left and the policy asks for grouping at the current
   * button width.  NEVER collapses none, ALWAYS every group.
   */
  function GroupCount(policy: Grouping, limit: int, grids: seq<Grid>, order: seq<Task>, saved: int): (k: nat)
    ensures k <= |order|
    ensures policy == NeverGroup ==> k == 0
    ensures policy == AlwaysGroup ==> k == |order|
    decreases |order|
  {
    if order == [] || !KeepGrouping(policy, limit, WidthAfter(grids, saved)) then 0
    else 1 + GroupCount(policy, limit, grids, order[1..], saved + WindowCount(order[0]) - 1)
  }

  lemma PrefixStep(p: seq<Task>, j: nat)
    requires j < |p|
    ensures p[..j + 1] == [p[0]] + p[1..][..j]
    ensures Collapsed(p[..j + 1]) == WindowCount(p[0]) - 1 + Collapsed(p[1..][..j])
  {
    assert p[..j + 1] == [p[0]] + p[1..][..j];
    assert ([p[0]] + p[1..][..j])[1..] == p[1..][..j];
  }

  /**
   * The loop collapses the first k groups of the order because the policy
   * asked for grouping before each of them, at the width of the buttons left
   * by the groups collapsed before it.
   */
  lemma {:induction false} GroupCountKeeps(policy: Grouping, limit: int, grids: seq<Grid>,
                                           order: seq<Task>, saved: int, j: nat)
    requires j < GroupCount(policy, limit, grids, order, saved)
    ensures KeepGrouping(policy, limit, WidthAfter(grids, saved + Collapsed(order[..j])))
    decreases |order|
  {
    if j == 0 {
      assert order[..0] == [];
    } else {
      var saved' := saved + WindowCount(order[0]) - 1;
      GroupCountKeeps(policy, limit, grids, order[1..], saved', j - 1);
      PrefixStep(order, j - 1);
    }
  }

  /** And it stops at the k-th group because the policy no longer asks for it, or no group is left. */
  lemma {:induction false} GroupCountHalts(policy: Grouping, limit: int, grids: seq<Grid>,
                                           order: seq<Task>, saved: int)
    ensures var k := GroupCount(policy, limit, grids, order, saved);
      k < |order| ==> !KeepGrouping(policy, limit, WidthAfter(grids, saved + Collapsed(order[..k])))
    decreases |order|
  {
    var k := GroupCount(policy, limit, grids, order, saved);
    if k == 0 {
      assert order[..0] == [];
    } else {
      var saved' := saved + WindowCount(order[0]) - 1;
      GroupCountHalts(policy, limit, grids, order[1..], saved');
      if k < |order| {
        PrefixStep(order, k - 1);
      }
    }
  }

  /** The groups left when the picked ones are taken off the list one after the other. */
  function Without(gs: seq<Task>, picked: seq<Task>): seq<Task>
  {
    if picked == [] then gs
    else RemoveFirst(Without(gs, picked[..|picked| - 1]), picked[|picked| - 1])
  }

  lemma WithoutAppend(gs: seq<Task>, picked: seq<Task>, t: Task)
    ensures Without(gs, picked + [t]) == RemoveFirst(Without(gs, picked), t)
  {
    assert (picked + [t])[..|picked|] == picked;
  }

  /**
   * Once the first k groups of the pick order are taken off, the groups left
   * are picked in the rest of that order.
   */
  lemma {:induction false} WithoutPicks(gs: seq<Task>, k: nat)
    requires AllScored(gs) && k <= |gs|
    ensures AllScored(Without(gs, PickOrder(gs)[..k]))
    ensures PickOrder(Without(gs, PickOrder(gs)[..k])) == PickOrder(gs)[k..]
    decreases k
  {
    var p := PickOrder(gs);
    if k == 0 {
      assert p[..0] == [] && p[0..] == p;
    } else {
      WithoutPicks(gs, k - 1);
      var w := Without(gs, p[..k - 1]);
      WithoutTake(gs, p, k);
      PickOrderUnfold(w);
      assert p[k - 1..][1..] == p[k..];
    }
  }

  /** Together with the k groups taken off, the groups left are the groups given. */
  lemma {:induction false} WithoutPermutes(gs: seq<Task>, k: nat)
    requires AllScored(gs) && k <= |gs|
    ensures multiset(PickOrder(gs)[..k]) + multiset(Without(gs, PickOrder(gs)[..k])) == multiset(gs)
    decreases k
  {
    var p := PickOrder(gs);
    if k == 0 {
      assert p[..0] == [];
    } else {
      WithoutPermutes(gs, k - 1);
      WithoutStep(gs, k);
      RemoveFirstMultiset(Without(gs, p[..k - 1]), p[k - 1]);
    }
  }

  /** Taking off the first k of q is taking off the first k - 1 and then the k-th. */
  lemma WithoutTake(gs: seq<Task>, q: seq<Task>, k: nat)
    requires 0 < k <= |q|
    ensures Without(gs, q[..k]) == RemoveFirst(Without(gs, q[..k - 1]), q[k - 1])
    ensures q[..k] == q[..k - 1] + [q[k - 1]]
  {
    assert q[..k][..k - 1] == q[..k - 1];
  }

  /** Each group taken off leaves one group fewer. */
  lemma WithoutLength(gs: seq<Task>, k: nat)
    requires AllScored(gs) && k <= |gs|
    ensures |Without(gs, PickOrder(gs)[..k])| == |gs| - k
  {
    WithoutPicks(gs, k);
  }

  /** The k-th group taken off is the best of those the first k - 1 leave. */
  lemma WithoutStep(gs: seq<Task>, k: nat)
    requires AllScored(gs) && 0 < k <= |gs|
    ensures var p := PickOrder(gs);
      var w := Without(gs, p[..k - 1]);
      AllScored(w) && w != [] && p[k - 1] == Best(w) &&
      Without(gs, p[..k]) == RemoveFirst(w, p[k - 1]) && p[..k] == p[..k - 1] + [p[k - 1]]
  {
    var p := PickOrder(gs);
    WithoutPicks(gs, k - 1);
    var w := Without(gs, p[..k - 1]);
    PickOrderUnfold(w);
    assert p[k - 1..][0] == p[k - 1];
    WithoutTake(gs, p, k);
  }

  /** The windows of the groups taken off and of the groups left are the windows of all groups. */
  lemma {:induction false} WithoutTotalWindows(gs: seq<Task>, k: nat)
    requires AllScored(gs) && k <= |gs|
    ensures TotalWindows(PickOrder(gs)[..k]) + TotalWindows(Without(gs, PickOrder(gs)[..k])) == TotalWindows(gs)
    decreases k
  {
    var p := PickOrder(gs);
    if k == 0 {
      assert p[..0] == [];
    } else {
      WithoutTotalWindows(gs, k - 1);
      WithoutStep(gs, k);
      TotalWindowsRemoveFirst(Without(gs, p[..k - 1]), p[k - 1]);
      TotalWindowsAppend(p[..k - 1], [p[k - 1]]);
    }
  }

  /** The same for the buttons that collapsing saves. */
  lemma {:induction false} WithoutCollapsed(gs: seq<Task>, k: nat)
    requires AllScored(gs) && k <= |gs|
    ensures Collapsed(PickOrder(gs)[..k]) + Collapsed(Without(gs, PickOrder(gs)[..k])) == Collapsed(gs)
    decreases k
  {
    var p := PickOrder(gs);
    if k == 0 {
      assert p[..0] == [];
    } else {
      WithoutCollapsed(gs, k - 1);
      WithoutStep(gs, k);
      CollapsedRemoveFirst(Without(gs, p[..k - 1]), p[k - 1]);
      CollapsedAppend(p[..k - 1], [p[k - 1]]);
    }
  }

  /** The buttons the collapsed groups leave, the one collapsed last first. */
  function ShownReversed(collapsed: seq<Task>): (r: seq<Task>)
    ensures |r| == |collapsed|
  {
    if collapsed == [] then []
    else [Shown(collapsed[|collapsed| - 1])] + ShownReversed(collapsed[..|collapsed| - 1])
  }

  lemma ShownReversedAppend(collapsed: seq<Task>, g: Task)
    ensures ShownReversed(collapsed + [g]) == [Shown(g)] + ShownReversed(collapsed)
  {
    assert (collapsed + [g])[..|collapsed|] == collapsed;
  }

  /** One more group of q collapsed: its button goes in front, and its windows less one are saved. */
  lemma ShownCollapsedStep(q: seq<Task>, i: nat)
    requires i < |q|
    ensures ShownReversed(q[..i + 1]) == [Shown(q[i])] + ShownReversed(q[..i])
    ensures Collapsed(q[..i + 1]) == Collapsed(q[..i]) + WindowCount(q[i]) - 1
  {
    assert q[..i + 1] == q[..i] + [q[i]];
    ShownReversedAppend(q[..i], q[i]);
    CollapsedAppend(q[..i], [q[i]]);
  }

  /** A prefix of a list of populated groups saves no fewer than none and no more than the whole list. */
  lemma {:induction false} CollapsedPrefix(q: seq<Task>, i: nat)
    requires Populated(q) && i <= |q|
    ensures 0 <= Collapsed(q[..i]) <= Collapsed(q)
  {
    assert q[..i] + q[i..] == q;
    CollapsedAppend(q[..i], q[i..]);
    PopulatedAll(q);
    assert forall t :: t in q[..i] ==> t in q;
    assert forall t :: t in q[i..] ==> t in q;
    CollapsedBounds(q[..i]);
    CollapsedBounds(q[i..]);
  }

  /** The groups left after taking off some picked ones are among the groups given. */
  lemma {:induction false} WithoutMembers(gs: seq<Task>, picked: seq<Task>)
    ensures forall t :: t in Without(gs, picked) ==> t in gs
    decreases |picked|
  {
    if picked != [] {
      WithoutMembers(gs, picked[..|picked| - 1]);
      RemoveFirstRemoves(Without(gs, picked[..|picked| - 1]), picked[|picked| - 1]);
    }
  }

  /**
   * After i rounds the savings are those of the first i groups of the pick
   * order; they are never negative and never exceed the buttons there are,
   * and the groups left still hold windows.
   */
  lemma RoundBudget(classGroups: seq<Task>, i: nat, n: int)
    requires AllScored(classGroups) && Populated(classGroups) && TotalWindows(classGroups) <= n
    requires i <= |classGroups|
    ensures var p := PickOrder(classGroups);
      0 <= Collapsed(p[..i]) <= n && Populated(Without(classGroups, p[..i]))
  {
    var p := PickOrder(classGroups);
    PickOrderPermutes(classGroups);
    PopulatedAll(classGroups);
    PopulatedAll(p);
    CollapsedPrefix(p, i);
    CollapsedPickOrder(classGroups);
    CollapsedBounds(classGroups);
    WithoutMembers(classGroups, p[..i]);
    PopulatedAll(Without(classGroups, p[..i]));
  }

  /** While a group is left and the policy asks for grouping, the loop has rounds to go. */
  lemma RoundContinues(policy: Grouping, gl: int, grids: seq<Grid>, classGroups: seq<Task>, i: nat)
    requires AllScored(classGroups)
    requires i <= GroupCount(policy, gl, grids, PickOrder(classGroups), 0)
    requires Without(classGroups, PickOrder(classGroups)[..i]) != []
    requires KeepGrouping(policy, gl, WidthAfter(grids, Collapsed(PickOrder(classGroups)[..i])))
    ensures i < GroupCount(policy, gl, grids, PickOrder(classGroups), 0)
  {
    var p := PickOrder(classGroups);
    if i == GroupCount(policy, gl, grids, p, 0) {
      GroupCountHalts(policy, gl, grids, p, 0);
      assert 0 + Collapsed(p[..i]) == Collapsed(p[..i]);
      WithoutLength(classGroups, i);
    }
  }

  /**
   * One round: the group taken is the next of the pick order, the groups it
   * leaves are those the first i + 1 picks leave, its button goes in front
   * and its savings are added.
   */
  lemma RoundAdvance(policy: Grouping, gl: int, grids: seq<Grid>, classGroups: seq<Task>, i: nat, n: int)
    requires AllScored(classGroups) && Populated(classGroups) && TotalWindows(classGroups) <= n
    requires i <= GroupCount(policy, gl, grids, PickOrder(classGroups), 0)
    requires Without(classGroups, PickOrder(classGroups)[..i]) != []
    requires KeepGrouping(policy, gl, WidthAfter(grids, Collapsed(PickOrder(classGroups)[..i])))
    ensures var p := PickOrder(classGroups);
      var w := Without(classGroups, p[..i]);
      i < GroupCount(policy, gl, grids, p, 0) && i < |classGroups| &&
      AllScored(w) && Populated(w) && Best(w) == p[i] &&
      RemoveFirst(w, p[i]) == Without(classGroups, p[..i + 1]) &&
      ShownReversed(p[..i + 1]) == [Shown(p[i])] + ShownReversed(p[..i]) &&
      Collapsed(p[..i + 1]) == Collapsed(p[..i]) + WindowCount(p[i]) - 1 &&
      0 <= Collapsed(p[..i + 1]) <= n
  {
    RoundContinues(policy, gl, grids, classGroups, i);
    WithoutStep(classGroups, i + 1);
    RoundBudget(classGroups, i, n);
    ShownCollapsedStep(PickOrder(classGroups), i);
    RoundBudget(classGroups, i + 1, n);
  }

  /** When the loop stops it has made all its rounds. */
  lemma RoundStops(policy: Grouping, gl: int, grids: seq<Grid>, classGroups: seq<Task>, i: nat)
    requires AllScored(classGroups)
    requires i <= GroupCount(policy, gl, grids, PickOrder(classGroups), 0)
    requires Without(classGroups, PickOrder(classGroups)[..i]) == [] ||
             !KeepGrouping(policy, gl, WidthAfter(grids, Collapsed(PickOrder(classGroups)[..i])))
    ensures i == GroupCount(policy, gl, grids, PickOrder(classGroups), 0)
  {
    var p := PickOrder(classGroups);
    if i < GroupCount(policy, gl, grids, p, 0) {
      GroupCountKeeps(policy, gl, grids, p, 0, i);
      assert 0 + Collapsed(p[..i]) == Collapsed(p[..i]);
      WithoutLength(classGroups, i);
    }
  }

  /**
   * What the grouping loop ends with: the buttons left by the groups it
   * collapses, the groups it leaves, and the buttons it saves.
   */
  function Grouped(policy: Grouping, gl: int, sz: Sizes, n: nat, classGroups: seq<Task>): (r: (seq<Task>, seq<Task>, int))
    requires sz.maxHeight >= 1 && AllScored(classGroups)
    ensures |r.0| + |r.1| == |classGroups|
  {
    var p := PickOrder(classGroups);
    var k := GroupCount(policy, gl, GridTable(sz, n), p, 0);
    WithoutLength(classGroups, k);
    (ShownReversed(p[..k]), Without(classGroups, p[..k]), Collapsed(p[..k]))
  }

  /**
   * The grouping loop of wnck_tasklist_size_allocate for n buttons (windows
   * and startup sequences) and the capped grouping limit gl: it lays the
   * buttons out, and while a class group is left and the policy asks for
   * grouping it takes the highest-scored group, counts the buttons its
   * collapse saves, puts the button it leaves in front of the visible list
   * and lays the remaining buttons out again.  It ends with the k groups of
   * GroupCount collapsed, the rest of the groups left, and the layout of the
   * buttons that remain.
   */
  method GroupingLoop(policy: Grouping, gl: int, sz: Sizes, n: nat, classGroups: seq<Task>)
    returns (shown: seq<Task>, ungrouped: seq<Task>, saved: int, grid: Grid)
    requires sz.maxHeight >= 1 && AllScored(classGroups) && Populated(classGroups)
    requires TotalWindows(classGroups) <= n
    ensures shown == Grouped(policy, gl, sz, n, classGroups).0
    ensures ungrouped == Grouped(policy, gl, sz, n, classGroups).1
    ensures saved == Grouped(policy, gl, sz, n, classGroups).2
    ensures 0 <= saved <= n
    ensures grid == GridAfter(GridTable(sz, n), saved)
  {
    ghost var p := PickOrder(classGroups);
    ghost var k := GroupCount(policy, gl, GridTable(sz, n), p, 0);
    ghost var i := 0;
    assert p[..0] == [];
    grid := Relayout(sz, n, 0);
    shown, ungrouped, saved := [], classGroups, 0;
    while ungrouped != [] && KeepGrouping(policy, gl, grid.buttonWidth)
      invariant i <= k && i <= |classGroups|
      invariant ungrouped == Without(classGroups, p[..i])
      invariant shown == ShownReversed(p[..i])
      invariant saved == Collapsed(p[..i])
      invariant 0 <= saved <= n
      invariant grid == GridAfter(GridTable(sz, n), saved)
      decreases |classGroups| - i
    {
      RoundAdvance(policy, gl, GridTable(sz, n), classGroups, i, n);
      var task, rest := CollapseHighest(ungrouped);
      saved := saved + WindowCount(task) - 1;
      shown := [Shown(task)] + shown;
      i := i + 1;
      grid := Relayout(sz, n, saved);
      ungrouped := rest;
    }
    RoundStops(policy, gl, GridTable(sz, n), classGroups, i);
  }
}

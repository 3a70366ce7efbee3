/**
 * Choosing which class group to collapse next (libwnck/task.c,
 * wnck_task_get_highest_scored) and the order in which repeated choices take
 * the groups.  Grouping scores are floating point in the source; here they
 * are abstract integers with the same ordering role.
 */
module Scoring {
  import opened Base
  import opened Tasks

  /** The grouping policy of a tasklist (WnckTasklistGroupingType). */
  datatype Grouping = NeverGroup | AutoGroup | AlwaysGroup

  /** The grouping limit a new tasklist starts with, in pixels. */
  const DefaultGroupingLimit: int := 80

  /** The initial running maximum of wnck_task_get_highest_scored. */
  const MinScore: int := -1000000000

  /** task->grouping_score; it stays 0 on tasks that are not class groups. */
  function Score(t: Task): int
  {
    if t.GroupTask? then t.score else 0
  }

  /** The number of entries in task->windows (empty for window and startup tasks). */
  function WindowCount(t: Task): nat
  {
    if t.GroupTask? then |t.windows| else 0
  }

  /**
   * The index the running-maximum scan settles on: the last task whose score
   * is at least every earlier candidate's and at least MinScore.
   */
  function BestIndex(gs: seq<Task>): (r: Option<nat>)
    ensures r.Some? ==> r.value < |gs|
    decreases |gs|
  {
    if gs == [] then None
    else
      var last := |gs| - 1;
      match BestIndex(gs[..last])
      case None => if Score(gs[last]) >= MinScore then Some(last) else None
      case Some(k) => if Score(gs[last]) >= Score(gs[k]) then Some(last) else Some(k)
  }

  /** The chosen task has the highest score, and is the last of those that tie. */
  lemma {:induction false} BestIndexIsLastMaximum(gs: seq<Task>)
    ensures BestIndex(gs).None? ==> forall j :: 0 <= j < |gs| ==> Score(gs[j]) < MinScore
    ensures BestIndex(gs).Some? ==>
      var k := BestIndex(gs).value;
      Score(gs[k]) >= MinScore &&
      (forall j :: 0 <= j < |gs| ==> Score(gs[j]) <= Score(gs[k])) &&
      (forall j :: k < j < |gs| ==> Score(gs[j]) < Score(gs[k]))
    decreases |gs|
  {
    if gs != [] {
      var last := |gs| - 1;
      BestIndexIsLastMaximum(gs[..last]);
      assert forall j :: 0 <= j < last ==> gs[..last][j] == gs[j];
    }
  }

  /**
   * g_list_remove: drops the first element equal to x, if there is one, so
   * the list is one shorter exactly when x occurs.
   */
  function RemoveFirst(s: seq<Task>, x: Task): (r: seq<Task>)
    ensures |r| == if x in s then |s| - 1 else |s|
  {
    if s == [] then []
    else
      assert s == [s[0]] + s[1..];
      if s[0] == x then s[1..]
      else [s[0]] + RemoveFirst(s[1..], x)
  }

  /**
   * Removing an element that occurs takes exactly one copy of it away;
   * removing one that does not occur changes nothing.
   */
  lemma {:induction false} RemoveFirstRemoves(s: seq<Task>, x: Task)
    ensures x in s ==> |RemoveFirst(s, x)| == |s| - 1 && multiset(RemoveFirst(s, x)) == multiset(s) - multiset{x}
    ensures x !in s ==> RemoveFirst(s, x) == s
    ensures forall t :: t in RemoveFirst(s, x) ==> t in s
  {
    if x in s {
      RemoveFirstMultiset(s, x);
      RemoveFirstShrinks(s, x);
    } else {
      RemoveFirstAbsent(s, x);
    }
  }

  /** Removing an element that does not occur changes nothing. */
  lemma {:induction false} RemoveFirstAbsent(s: seq<Task>, x: Task)
    requires x !in s
    ensures RemoveFirst(s, x) == s
  {
    if s != [] {
      assert s == [s[0]] + s[1..];
      RemoveFirstAbsent(s[1..], x);
    }
  }

  /** Removing a present element takes exactly one copy of it away. */
  lemma {:induction false} RemoveFirstMultiset(s: seq<Task>, x: Task)
    requires x in s
    ensures multiset(RemoveFirst(s, x)) + multiset{x} == multiset(s)
  {
    assert s == [s[0]] + s[1..];
    if s[0] != x {
      RemoveFirstMultiset(s[1..], x);
    }
  }

  /** Removing a present element shortens the list by one and adds nothing. */
  lemma {:induction false} RemoveFirstShrinks(s: seq<Task>, x: Task)
    requires x in s
    ensures |RemoveFirst(s, x)| == |s| - 1
    ensures forall t :: t in RemoveFirst(s, x) ==> t in s
  {
    if s[0] != x {
      RemoveFirstShrinks(s[1..], x);
      assert forall t :: t in RemoveFirst(s, x) ==> t == s[0] || t in RemoveFirst(s[1..], x);
    }
  }

  /** When x first occurs at k, removing it leaves the elements either side of k. */
  lemma {:induction false} RemoveFirstAt(s: seq<Task>, k: nat)
    requires k < |s| && forall j :: 0 <= j < k ==> s[j] != s[k]
    ensures RemoveFirst(s, s[k]) == s[..k] + s[k + 1..]
  {
    if k > 0 {
      RemoveFirstAt(s[1..], k - 1);
      assert s[1..][..k - 1] == s[1..k];
      assert s[1..][k..] == s[k + 1..];
      assert s[..k] == [s[0]] + s[1..k];
    }
  }

  /**
   * wnck_task_get_highest_scored: a running-maximum scan with `>=`, so ties go
   * to the later task, followed by removal of the chosen task from the list.
   */
  method HighestScored(groups: seq<Task>) returns (best: Option<Task>, rest: seq<Task>)
    ensures best.None? <==> forall j :: 0 <= j < |groups| ==> Score(groups[j]) < MinScore
    ensures best.None? ==> rest == groups
    ensures best.Some? ==>
      best.value in groups && Score(best.value) >= MinScore &&
      (forall j :: 0 <= j < |groups| ==> Score(groups[j]) <= Score(best.value)) &&
      rest == RemoveFirst(groups, best.value) &&
      multiset(rest) + multiset{best.value} == multiset(groups)
    ensures BestIndex(groups).Some? ==> best == Some(groups[BestIndex(groups).value])
  {
    var maxScore := MinScore;
    var bestIndex: Option<nat> := None;
    var i := 0;
    while i < |groups|
      invariant 0 <= i <= |groups|
      invariant bestIndex == BestIndex(groups[..i])
      invariant bestIndex.Some? ==> bestIndex.value < i && maxScore == Score(groups[bestIndex.value])
      invariant bestIndex.None? ==> maxScore == MinScore
    {
      assert groups[..i + 1][..i] == groups[..i];
      if Score(groups[i]) >= maxScore {
        maxScore := Score(groups[i]);
        bestIndex := Some(i);
      }
      i := i + 1;
    }
    assert groups[..i] == groups;
    BestIndexIsLastMaximum(groups);
    if bestIndex.Some? {
      best := Some(groups[bestIndex.value]);
      rest := RemoveFirst(groups, best.value);
      RemoveFirstRemoves(groups, best.value);
    } else {
      best := None;
      rest := groups;
    }
  }

  /** Every group holds a window. */
  predicate Populated(gs: seq<Task>)
  {
    gs == [] || (WindowCount(gs[0]) >= 1 && Populated(gs[1..]))
  }

  lemma {:induction false} PopulatedAll(gs: seq<Task>)
    ensures Populated(gs) <==> forall t :: t in gs ==> WindowCount(t) >= 1
  {
    if gs != [] {
      PopulatedAll(gs[1..]);
      assert gs == [gs[0]] + gs[1..];
    }
  }

  /**
   * One step of the grouping loops of the size request and the allocation:
   * the highest-scored group is taken off the ungrouped list, and the buttons
   * its collapse saves are counted.
   */
  method CollapseHighest(ungrouped: seq<Task>) returns (task: Task, rest: seq<Task>)
    requires ungrouped != [] && AllScored(ungrouped) && Populated(ungrouped)
    ensures task == Best(ungrouped) && rest == RemoveFirst(ungrouped, task)
    ensures |rest| == |ungrouped| - 1 && AllScored(rest) && Populated(rest)
    ensures WindowCount(task) >= 1 && Collapsed(rest) >= 0
    ensures Collapsed(ungrouped) == WindowCount(task) - 1 + Collapsed(rest)
  {
    var best, r := HighestScored(ungrouped);
    assert best.Some? by {
      assert ungrouped[0] in ungrouped;
    }
    BestIndexIsLastMaximum(ungrouped);
    task := best.value;
    rest := r;
    PopulatedAll(ungrouped);
    RemoveFirstRemoves(ungrouped, task);
    PopulatedAll(rest);
    CollapsedRemoveFirst(ungrouped, task);
    CollapsedBounds(rest);
  }

  ghost predicate AllScored(gs: seq<Task>)
  {
    forall t :: t in gs ==> Score(t) >= MinScore
  }

  /** A scored list always yields a choice. */
  lemma {:induction false} BestIndexFound(gs: seq<Task>)
    requires gs != [] && AllScored(gs)
    ensures BestIndex(gs).Some?
    decreases |gs|
  {
    var last := |gs| - 1;
    assert gs[last] in gs;
    if last > 0 {
      assert forall t :: t in gs[..last] ==> t in gs;
      BestIndexFound(gs[..last]);
    }
  }

  /** The head chosen from a non-empty list of scored groups. */
  function Best(gs: seq<Task>): (b: Task)
    requires gs != [] && AllScored(gs)
    ensures b in gs
  {
    BestIndexFound(gs);
    gs[BestIndex(gs).value]
  }

  lemma BestDominates(gs: seq<Task>, t: Task)
    requires gs != [] && AllScored(gs) && t in gs
    ensures Score(t) <= Score(Best(gs))
  {
    BestIndexIsLastMaximum(gs);
    var m :| 0 <= m < |gs| && gs[m] == t;
  }

  /** The order in which repeated calls of HighestScored take the groups. */
  function PickOrder(gs: seq<Task>): (r: seq<Task>)
    requires AllScored(gs)
    ensures |r| == |gs|
    decreases |gs|
  {
    if gs == [] then []
    else
      var b := Best(gs);
      RemoveFirstShrinks(gs, b);
      [b] + PickOrder(RemoveFirst(gs, b))
  }

  /** The pick order is a permutation of the groups. */
  lemma {:induction false} PickOrderPermutes(gs: seq<Task>)
    requires AllScored(gs)
    ensures multiset(PickOrder(gs)) == multiset(gs)
    ensures forall t :: t in PickOrder(gs) ==> t in gs
    decreases |gs|
  {
    if gs != [] {
      var b := Best(gs);
      var rest := RemoveFirst(gs, b);
      RemoveFirstRemoves(gs, b);
      PickOrderPermutes(rest);
      assert multiset(PickOrder(gs)) == multiset{b} + multiset(PickOrder(rest));
    }
  }

  /** PickOrder(gs) begins with the group chosen first and continues with the order of the rest. */
  lemma PickOrderUnfold(gs: seq<Task>)
    requires gs != [] && AllScored(gs)
    ensures var b := Best(gs);
      var rest := RemoveFirst(gs, b);
      AllScored(rest) && PickOrder(gs)[0] == b && PickOrder(gs)[1..] == PickOrder(rest) &&
      |rest| == |gs| - 1
  {
    var b := Best(gs);
    var rest := RemoveFirst(gs, b);
    RemoveFirstShrinks(gs, b);
    assert ([b] + PickOrder(rest))[1..] == PickOrder(rest);
  }

  /** Taking the groups in another order saves the same number of buttons in total. */
  lemma {:induction false} CollapsedPickOrder(gs: seq<Task>)
    requires AllScored(gs)
    ensures Collapsed(PickOrder(gs)) == Collapsed(gs)
    decreases |gs|
  {
    if gs != [] {
      var b := Best(gs);
      var rest := RemoveFirst(gs, b);
      PickOrderUnfold(gs);
      CollapsedPickOrder(rest);
      CollapsedRemoveFirst(gs, b);
    }
  }

  /** Groups are taken in non-increasing score order. */
  lemma {:induction false} PickOrderNonIncreasing(gs: seq<Task>)
    requires AllScored(gs)
    ensures forall i, j :: 0 <= i < j < |gs| ==> Score(PickOrder(gs)[i]) >= Score(PickOrder(gs)[j])
    decreases |gs|
  {
    if gs != [] {
      var b := Best(gs);
      var rest := RemoveFirst(gs, b);
      RemoveFirstRemoves(gs, b);
      PickOrderNonIncreasing(rest);
      PickOrderPermutes(rest);
      HeadDominates(gs, b, rest, PickOrder(rest));
    }
  }

  lemma HeadDominates(gs: seq<Task>, b: Task, rest: seq<Task>, tail: seq<Task>)
    requires gs != [] && AllScored(gs) && b == Best(gs)
    requires forall t :: t in tail ==> t in gs
    requires forall i, j :: 0 <= i < j < |tail| ==> Score(tail[i]) >= Score(tail[j])
    ensures forall i, j :: 0 <= i < j < |tail| + 1 ==> Score(([b] + tail)[i]) >= Score(([b] + tail)[j])
  {
    var r := [b] + tail;
    forall i, j | 0 <= i < j < |r| ensures Score(r[i]) >= Score(r[j]) {
      assert r[j] == tail[j - 1];
      if i > 0 {
        assert r[i] == tail[i - 1];
      } else {
        BestDominates(gs, tail[j - 1]);
      }
    }
  }

  /** n_grouped_buttons: every collapsed group saves all but one of its buttons. */
  function Collapsed(gs: seq<Task>): int
  {
    if gs == [] then 0 else (WindowCount(gs[0]) - 1) + Collapsed(gs[1..])
  }

  lemma {:induction false} CollapsedAppend(a: seq<Task>, b: seq<Task>)
    ensures Collapsed(a + b) == Collapsed(a) + Collapsed(b)
  {
    if a == [] {
      assert a + b == b;
    } else {
      assert (a + b)[1..] == a[1..] + b;
      CollapsedAppend(a[1..], b);
    }
  }

  lemma {:induction false} CollapsedRemoveFirst(s: seq<Task>, x: Task)
    requires x in s
    ensures Collapsed(s) == WindowCount(x) - 1 + Collapsed(RemoveFirst(s, x))
  {
    if s[0] != x {
      CollapsedRemoveFirst(s[1..], x);
      assert RemoveFirst(s, x)[1..] == RemoveFirst(s[1..], x);
    }
  }

  /** Each group keeps at least one button when every group holds a window. */
  lemma {:induction false} CollapsedBounds(gs: seq<Task>)
    requires forall t :: t in gs ==> WindowCount(t) >= 1
    ensures 0 <= Collapsed(gs) <= TotalWindows(gs) - |gs|
  {
    if gs != [] {
      assert gs[0] in gs;
      CollapsedBounds(gs[1..]);
    }
  }

  /** The number of windows held by the groups. */
  function TotalWindows(gs: seq<Task>): nat
  {
    if gs == [] then 0 else WindowCount(gs[0]) + TotalWindows(gs[1..])
  }

  lemma {:induction false} TotalWindowsAppend(a: seq<Task>, b: seq<Task>)
    ensures TotalWindows(a + b) == TotalWindows(a) + TotalWindows(b)
  {
    if a == [] {
      assert a + b == b;
    } else {
      assert (a + b)[1..] == a[1..] + b;
      TotalWindowsAppend(a[1..], b);
    }
  }

  lemma {:induction false} TotalWindowsRemoveFirst(s: seq<Task>, x: Task)
    requires x in s
    ensures TotalWindows(s) == WindowCount(x) + TotalWindows(RemoveFirst(s, x))
  {
    if s[0] != x {
      TotalWindowsRemoveFirst(s[1..], x);
      assert RemoveFirst(s, x)[1..] == RemoveFirst(s[1..], x);
    }
  }

  /** The buttons collapsing saves are the windows of the groups less one button per group. */
  lemma {:induction false} CollapsedTotal(gs: seq<Task>)
    ensures Collapsed(gs) == TotalWindows(gs) - |gs|
  {
    if gs != [] {
      CollapsedTotal(gs[1..]);
    }
  }
}

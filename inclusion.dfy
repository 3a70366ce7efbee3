/**
 * Which windows the tasklist shows (tasklist_include_window_impl) and how
 * wnck_tasklist_update_lists partitions the screen's windows into window
 * tasks, class-group tasks, tasks without a class group and skipped windows,
 * removing for every new window task the startup sequences it completes
 * (remove_startup_sequences_for_window in libwnck/task.c).
 */
module Inclusion {
  import opened Base
  import opened Tasks
  import opened Scoring
  import opened Placement

  /** The active workspace, as far as the inclusion rule queries it. */
  datatype Workspace = Workspace(number: nat, isVirtual: bool)

  /**
   * The tasklist state the rule consults: the monitor the tasklist is
   * restricted to (-1 for none), the include-all-workspaces setting and the
   * screen's active workspace, if any.
   */
  datatype Filter = Filter(monitorNum: int, includeAllWorkspaces: bool, activeWorkspace: Option<Workspace>)

  // ---------------------------------------------------------------------
  // The inclusion rule

  /**
   * The checks of tasklist_include_window_impl, in the order the source makes
   * them. For the skipped list only the monitor matters; a window the
   * tasklist itself lists does not ask to be skipped and lies on the monitor.
   */
  function IncludeWindowImpl(f: Filter, w: Window, checkForSkippedList: bool): (r: bool)
    ensures checkForSkippedList ==> (r <==> OnMonitor(f, w))
    ensures !checkForSkippedList && r ==> !w.skipTasklist && OnMonitor(f, w)
  {
    if !checkForSkippedList && w.skipTasklist then false
    else if f.monitorNum != -1 && w.monitor != f.monitorNum then false
    else if checkForSkippedList then true
    else if f.includeAllWorkspaces then true
    else if w.pinned then true
    else if f.activeWorkspace.None? then true
    else if w.needsAttention then true
    else if w.workspace != Some(f.activeWorkspace.value.number) then false
    else if !f.activeWorkspace.value.isVirtual then true
    else w.inViewport
  }

  /** wnck_tasklist_include_window: the window gets a task. */
  predicate IncludeWindow(f: Filter, w: Window)
  {
    IncludeWindowImpl(f, w, false)
  }

  /** tasklist_include_in_skipped_list: a window without a task is still watched. */
  predicate IncludeInSkippedList(f: Filter, w: Window)
  {
    IncludeWindowImpl(f, w, true)
  }

  predicate OnMonitor(f: Filter, w: Window)
  {
    f.monitorNum == -1 || w.monitor == f.monitorNum
  }

  /**
   * The rule as one condition: a window is listed when it does not ask to be
   * skipped, lies on the tasklist's monitor, and is wanted whatever its
   * workspace (all workspaces shown, pinned, no active workspace, needs
   * attention) or lies on the active workspace and, for a virtual one,
   * inside the viewport.
   */
  predicate Eligible(f: Filter, w: Window)
  {
    !w.skipTasklist && OnMonitor(f, w) &&
    (f.includeAllWorkspaces || w.pinned || f.activeWorkspace.None? || w.needsAttention ||
     (w.workspace == Some(f.activeWorkspace.value.number) &&
      (!f.activeWorkspace.value.isVirtual || w.inViewport)))
  }

  lemma IncludeWindowEligible(f: Filter, w: Window)
    ensures IncludeWindow(f, w) <==> Eligible(f, w)
  {
  }

  /** Every listed window would also pass the skipped-list check. */
  lemma IncludedPassesSkippedList(f: Filter, w: Window)
    ensures IncludeWindow(f, w) ==> IncludeInSkippedList(f, w)
  {
  }

  // ---------------------------------------------------------------------
  // Startup sequences completed by a window

  /** The startup task carries the window's startup id. */
  predicate MatchesStartup(w: Window, t: Task)
  {
    w.startupId.Some? && t.StartupTask? && t.startup.id == w.startupId
  }

  /** The startup tasks left once those the window completes are gone, in their order. */
  function Unmatched(w: Window, s: seq<Task>): seq<Task>
  {
    if s == [] then []
    else Unmatched(w, s[..|s| - 1]) + (if MatchesStartup(w, s[|s| - 1]) then [] else [s[|s| - 1]])
  }

  lemma {:induction false} UnmatchedMembers(w: Window, s: seq<Task>, t: Task)
    ensures t in Unmatched(w, s) <==> t in s && !MatchesStartup(w, t)
  {
    if s != [] {
      UnmatchedMembers(w, s[..|s| - 1], t);
      assert s == s[..|s| - 1] + [s[|s| - 1]];
    }
  }

  /** A window without a startup id completes nothing. */
  lemma {:induction false} UnmatchedWithoutId(w: Window, s: seq<Task>)
    requires w.startupId.None?
    ensures Unmatched(w, s) == s
  {
    if s != [] {
      UnmatchedWithoutId(w, s[..|s| - 1]);
      assert s == s[..|s| - 1] + [s[|s| - 1]];
    }
  }

  /**
   * remove_startup_sequences_for_window: every startup task whose id is the
   * window's startup id is destroyed, which takes it off the list.
   */
  method RemoveStartupSequencesForWindow(startups: seq<Task>, w: Window) returns (remaining: seq<Task>)
    ensures remaining == Unmatched(w, startups)
  {
    if w.startupId.None? {
      UnmatchedWithoutId(w, startups);
      return startups;
    }
    remaining := [];
    for i := 0 to |startups|
      invariant remaining == Unmatched(w, startups[..i])
    {
      var t := startups[i];
      if !(t.StartupTask? && t.startup.id == w.startupId) {
        remaining := remaining + [t];
      }
      assert startups[..i + 1][..i] == startups[..i];
    }
    assert startups[..|startups|] == startups;
  }

  // ---------------------------------------------------------------------
  // What one pass over the screen's windows yields

  /** The tasks of the listed windows, in screen order. */
  function IncludedTasks(f: Filter, screen: seq<Window>): seq<Task>
  {
    if screen == [] then []
    else
      var w := screen[|screen| - 1];
      IncludedTasks(f, screen[..|screen| - 1]) + (if IncludeWindow(f, w) then [WindowTask(w)] else [])
  }

  /** The tasks of the listed windows whose class group has an empty id. */
  function UnclassedTasks(f: Filter, screen: seq<Window>): seq<Task>
  {
    if screen == [] then []
    else
      var w := screen[|screen| - 1];
      UnclassedTasks(f, screen[..|screen| - 1]) +
      (if IncludeWindow(f, w) && w.classGroup.id == "" then [WindowTask(w)] else [])
  }

  /** The windows that get no task but are watched for state changes. */
  function SkippedWindows(f: Filter, screen: seq<Window>): seq<Window>
  {
    if screen == [] then []
    else
      var w := screen[|screen| - 1];
      SkippedWindows(f, screen[..|screen| - 1]) +
      (if !IncludeWindow(f, w) && IncludeInSkippedList(f, w) then [w] else [])
  }

  /** The startup tasks left after every listed window has completed its own. */
  function StartupsLeft(f: Filter, screen: seq<Window>, startups: seq<Task>): seq<Task>
  {
    if screen == [] then startups
    else
      var w := screen[|screen| - 1];
      var rest := StartupsLeft(f, screen[..|screen| - 1], startups);
      if IncludeWindow(f, w) then Unmatched(w, rest) else rest
  }

  lemma {:induction false} IncludedTasksMembers(f: Filter, screen: seq<Window>, t: Task)
    ensures t in IncludedTasks(f, screen) <==> t.WindowTask? && t.win in screen && IncludeWindow(f, t.win)
  {
    if screen != [] {
      IncludedTasksMembers(f, screen[..|screen| - 1], t);
      assert screen == screen[..|screen| - 1] + [screen[|screen| - 1]];
    }
  }

  lemma {:induction false} UnclassedTasksMembers(f: Filter, screen: seq<Window>, t: Task)
    ensures t in UnclassedTasks(f, screen) <==>
            t.WindowTask? && t.win in screen && IncludeWindow(f, t.win) && t.win.classGroup.id == ""
  {
    if screen != [] {
      UnclassedTasksMembers(f, screen[..|screen| - 1], t);
      assert screen == screen[..|screen| - 1] + [screen[|screen| - 1]];
    }
  }

  lemma {:induction false} SkippedWindowsMembers(f: Filter, screen: seq<Window>, w: Window)
    ensures w in SkippedWindows(f, screen) <==>
            w in screen && !IncludeWindow(f, w) && IncludeInSkippedList(f, w)
  {
    if screen != [] {
      SkippedWindowsMembers(f, screen[..|screen| - 1], w);
      assert screen == screen[..|screen| - 1] + [screen[|screen| - 1]];
    }
  }

  /** A startup task survives exactly when no listed window completes it. */
  lemma {:induction false} StartupsLeftMembers(f: Filter, screen: seq<Window>, startups: seq<Task>, t: Task)
    ensures t in StartupsLeft(f, screen, startups) <==>
            t in startups && forall w :: w in screen && IncludeWindow(f, w) ==> !MatchesStartup(w, t)
  {
    if screen != [] {
      var front, w := screen[..|screen| - 1], screen[|screen| - 1];
      StartupsLeftMembers(f, front, startups, t);
      assert screen == front + [w];
      if IncludeWindow(f, w) {
        UnmatchedMembers(w, StartupsLeft(f, front, startups), t);
      }
    }
  }

  /** The four lists, as the loop builds them, after one more window. */
  lemma PartitionStep(f: Filter, screen: seq<Window>, startups: seq<Task>, i: nat)
    requires i < |screen|
    ensures var w, p, q := screen[i], screen[..i], screen[..i + 1];
      Reversed(IncludedTasks(f, q)) ==
        (if IncludeWindow(f, w) then [WindowTask(w)] + Reversed(IncludedTasks(f, p)) else Reversed(IncludedTasks(f, p))) &&
      Reversed(UnclassedTasks(f, q)) ==
        (if IncludeWindow(f, w) && w.classGroup.id == "" then [WindowTask(w)] + Reversed(UnclassedTasks(f, p))
         else Reversed(UnclassedTasks(f, p))) &&
      Reversed(SkippedWindows(f, q)) ==
        (if !IncludeWindow(f, w) && IncludeInSkippedList(f, w) then [w] + Reversed(SkippedWindows(f, p))
         else Reversed(SkippedWindows(f, p))) &&
      StartupsLeft(f, q, startups) ==
        (if IncludeWindow(f, w) then Unmatched(w, StartupsLeft(f, p, startups)) else StartupsLeft(f, p, startups))
  {
    var w, p, q := screen[i], screen[..i], screen[..i + 1];
    assert q[..i] == p;
    ReversedSnoc(IncludedTasks(f, p), WindowTask(w));
    ReversedSnoc(UnclassedTasks(f, p), WindowTask(w));
    ReversedSnoc(SkippedWindows(f, p), w);
    assert IncludedTasks(f, p) + [] == IncludedTasks(f, p);
    assert UnclassedTasks(f, p) + [] == UnclassedTasks(f, p);
    assert SkippedWindows(f, p) + [] == SkippedWindows(f, p);
  }

  // ---------------------------------------------------------------------
  // The class-group hash table

  /** The class-group ids of a list of class groups. */
  function Ids(order: seq<ClassGroup>): set<string>
  {
    if order == [] then {} else {order[0].id} + Ids(order[1..])
  }

  predicate DistinctIds(order: seq<ClassGroup>)
  {
    order == [] || (order[0].id !in Ids(order[1..]) && DistinctIds(order[1..]))
  }

  /**
   * The windows collected so far, over the class groups in list order; the
   * windows of a group task live in `members`, keyed by the group's id (the
   * task that class_group_hash maps the group to).
   */
  ghost function Members(order: seq<ClassGroup>, members: map<string, seq<Task>>): multiset<Task>
  {
    if order == [] then multiset{}
    else
      (if order[0].id in members then multiset(members[order[0].id]) else multiset{}) +
      Members(order[1..], members)
  }

  /**
   * The class-group list and the hash agree: one task per id, never for the
   * empty id, and each holds at least one window, all of its class group.
   */
  ghost predicate GroupsOk(order: seq<ClassGroup>, members: map<string, seq<Task>>)
  {
    DistinctIds(order) && members.Keys == Ids(order) && "" !in members &&
    forall id | id in members ::
      members[id] != [] && forall t | t in members[id] :: t.WindowTask? && t.win.classGroup.id == id
  }

  lemma {:induction false} InIds(order: seq<ClassGroup>, g: ClassGroup)
    requires g in order
    ensures g.id in Ids(order)
  {
    if order[0] != g {
      InIds(order[1..], g);
    }
  }

  lemma {:induction false} MembersFresh(order: seq<ClassGroup>, m: map<string, seq<Task>>, id: string, v: seq<Task>)
    requires id !in Ids(order)
    ensures Members(order, m[id := v]) == Members(order, m)
  {
    if order != [] {
      MembersFresh(order[1..], m, id, v);
    }
  }

  lemma {:induction false} MembersGrow(order: seq<ClassGroup>, m: map<string, seq<Task>>, id: string, t: Task)
    requires DistinctIds(order) && id in Ids(order) && id in m
    ensures Members(order, m[id := [t] + m[id]]) == Members(order, m) + multiset{t}
  {
    var m' := m[id := [t] + m[id]];
    if order[0].id == id {
      MembersFresh(order[1..], m, id, [t] + m[id]);
      assert multiset(m'[id]) == multiset(m[id]) + multiset{t};
    } else {
      assert id in Ids(order[1..]);
      MembersGrow(order[1..], m, id, t);
      assert order[0].id in m' <==> order[0].id in m;
      assert order[0].id in m ==> m'[order[0].id] == m[order[0].id];
    }
  }

  lemma {:induction false} MembersSnoc(order: seq<ClassGroup>, g: ClassGroup, m: map<string, seq<Task>>)
    ensures Members(order + [g], m) ==
            Members(order, m) + (if g.id in m then multiset(m[g.id]) else multiset{})
  {
    if order != [] {
      assert (order + [g])[1..] == order[1..] + [g];
      MembersSnoc(order[1..], g, m);
    }
  }

  lemma {:induction false} DistinctIdsApart(order: seq<ClassGroup>, i: nat, j: nat)
    requires DistinctIds(order) && i < j < |order|
    ensures order[i].id != order[j].id
  {
    if i == 0 {
      InIds(order[1..], order[j]);
    } else {
      DistinctIdsApart(order[1..], i - 1, j - 1);
    }
  }

  /**
   * The class-group lookup and the prepend of update_lists: the window's
   * task joins its group's task, which is created, and put at the head of
   * the class-group list, when the hash has none yet.
   */
  method AddToGroup(order: seq<ClassGroup>, members: map<string, seq<Task>>, t: Task)
    returns (newOrder: seq<ClassGroup>, newMembers: map<string, seq<Task>>)
    requires GroupsOk(order, members) && t.WindowTask? && t.win.classGroup.id != ""
    ensures GroupsOk(newOrder, newMembers)
    ensures Members(newOrder, newMembers) == Members(order, members) + multiset{t}
    ensures newOrder == order || newOrder == [t.win.classGroup] + order
  {
    var g := t.win.classGroup;
    newOrder, newMembers := order, members;
    if g.id !in newMembers {
      newOrder := [g] + newOrder;
      newMembers := newMembers[g.id := []];
      AddNewGroup(order, members, t);
      assert [t] + newMembers[g.id] == [t];
      assert newMembers[g.id := [t] + newMembers[g.id]] == members[g.id := [t]];
    } else {
      AddToExistingGroup(order, members, t);
    }
    newMembers := newMembers[g.id := [t] + newMembers[g.id]];
  }

  lemma AddNewGroup(order: seq<ClassGroup>, members: map<string, seq<Task>>, t: Task)
    requires GroupsOk(order, members) && t.WindowTask? && t.win.classGroup.id != ""
    requires t.win.classGroup.id !in members
    ensures var g := t.win.classGroup;
      GroupsOk([g] + order, members[g.id := [t]]) &&
      Members([g] + order, members[g.id := [t]]) == Members(order, members) + multiset{t}
  {
    var g := t.win.classGroup;
    assert ([g] + order)[1..] == order;
    MembersFresh(order, members, g.id, [t]);
  }

  lemma AddToExistingGroup(order: seq<ClassGroup>, members: map<string, seq<Task>>, t: Task)
    requires GroupsOk(order, members) && t.WindowTask? && t.win.classGroup.id in members
    ensures var id := t.win.classGroup.id;
      GroupsOk(order, members[id := [t] + members[id]]) &&
      Members(order, members[id := [t] + members[id]]) == Members(order, members) + multiset{t}
  {
    GroupsOkGrow(order, members, t);
    MembersGrow(order, members, t.win.classGroup.id, t);
  }

  /** A window added in front of its own class group's windows keeps the list and the hash in agreement. */
  lemma GroupsOkGrow(order: seq<ClassGroup>, members: map<string, seq<Task>>, t: Task)
    requires GroupsOk(order, members) && t.WindowTask? && t.win.classGroup.id in members
    ensures GroupsOk(order, members[t.win.classGroup.id := [t] + members[t.win.classGroup.id]])
  {
    var id := t.win.classGroup.id;
    var m' := members[id := [t] + members[id]];
    assert m'.Keys == members.Keys;
    forall id' | id' in m'
      ensures m'[id'] != [] && forall u | u in m'[id'] :: u.WindowTask? && u.win.classGroup.id == id'
    {
      if id' == id {
        assert forall u | u in m'[id'] :: u == t || u in members[id];
      }
    }
  }

  // ---------------------------------------------------------------------
  // The class-group tasks

  /**
   * Class-group tasks as the tasklist keeps them: one per non-empty id, each
   * with its windows sorted by wnck_task_compare and all of that class group.
   */
  ghost predicate WellFormedGroups(gs: seq<Task>)
  {
    (forall g | g in gs ::
       g.GroupTask? && g.group.id != "" && SortedBy(ByTaskOrder, g.windows) &&
       forall t | t in g.windows :: t.WindowTask? && t.win.classGroup.id == g.group.id) &&
    forall i, j | 0 <= i < j < |gs| :: KeyAt(gs, i) != KeyAt(gs, j)
  }

  /** The key of the task at a position of a list. */
  function KeyAt(gs: seq<Task>, i: nat): TaskKey
    requires i < |gs|
  {
    Key(gs[i])
  }

  /** The class-group task update_lists leaves for one group of the list. */
  function GroupTaskOf(g: ClassGroup, members: map<string, seq<Task>>): Task
  {
    GroupTask(g, if g.id in members then Sort(ByTaskOrder, members[g.id]) else [], 0)
  }

  /** The class-group tasks for a class-group list, in its order. */
  function GroupTasks(order: seq<ClassGroup>, members: map<string, seq<Task>>): (gs: seq<Task>)
    ensures |gs| == |order|
  {
    if order == [] then []
    else GroupTasks(order[..|order| - 1], members) + [GroupTaskOf(order[|order| - 1], members)]
  }

  lemma GroupTaskOk(order: seq<ClassGroup>, members: map<string, seq<Task>>, g: ClassGroup)
    requires GroupsOk(order, members) && g in order
    ensures g.id in members
    ensures var gt := GroupTaskOf(g, members);
      gt.group.id != "" && SortedBy(ByTaskOrder, gt.windows) && WindowCount(gt) >= 1 &&
      Score(gt) >= MinScore &&
      multiset(gt.windows) == multiset(members[g.id]) &&
      forall t | t in gt.windows :: t.WindowTask? && t.win.classGroup.id == g.id
  {
    InIds(order, g);
    SortSortedPermutation(ByTaskOrder, members[g.id]);
    var gt := GroupTaskOf(g, members);
    forall t | t in gt.windows ensures t.WindowTask? && t.win.classGroup.id == g.id {
      assert t in multiset(gt.windows);
    }
  }

  lemma FlattenSnoc(gs: seq<Task>, g: Task)
    ensures Flatten(gs + [g]) == Flatten(gs) + WindowsOf(g)
  {
    assert (gs + [g])[..|gs|] == gs;
  }

  lemma {:induction false} GroupTasksAt(order: seq<ClassGroup>, members: map<string, seq<Task>>, k: nat)
    requires k < |order|
    ensures GroupTasks(order, members)[k] == GroupTaskOf(order[k], members)
  {
    if k < |order| - 1 {
      GroupTasksAt(order[..|order| - 1], members, k);
    }
  }

  /** The group tasks hold, between them, every window collected for the groups. */
  lemma {:induction false} GroupTasksWindows(order: seq<ClassGroup>, members: map<string, seq<Task>>)
    ensures multiset(Flatten(GroupTasks(order, members))) == Members(order, members)
  {
    if order != [] {
      var front, g := order[..|order| - 1], order[|order| - 1];
      assert order == front + [g];
      GroupTasksWindows(front, members);
      if g.id in members {
        SortSortedPermutation(ByTaskOrder, members[g.id]);
      }
      FlattenSnoc(GroupTasks(front, members), GroupTaskOf(g, members));
      MembersSnoc(front, g, members);
    }
  }

  lemma GroupsWellFormed(order: seq<ClassGroup>, members: map<string, seq<Task>>)
    requires GroupsOk(order, members)
    ensures var gs := GroupTasks(order, members);
      WellFormedGroups(gs) && AllScored(gs) && Populated(gs)
  {
    var gs := GroupTasks(order, members);
    forall g | g in gs
      ensures g.GroupTask? && g.group.id != "" && SortedBy(ByTaskOrder, g.windows) && WindowCount(g) >= 1 &&
              Score(g) >= MinScore &&
              forall t | t in g.windows :: t.WindowTask? && t.win.classGroup.id == g.group.id
    {
      var k :| 0 <= k < |gs| && gs[k] == g;
      GroupTasksAt(order, members, k);
      GroupTaskOk(order, members, order[k]);
    }
    forall i, j | 0 <= i < j < |gs| ensures KeyAt(gs, i) != KeyAt(gs, j) {
      GroupTasksAt(order, members, i);
      GroupTasksAt(order, members, j);
      DistinctIdsApart(order, i, j);
    }
    PopulatedAll(gs);
  }

  /**
   * The second loop of update_lists: every class-group task gets its windows
   * sorted.  The tasks come out in the order of the class-group list.
   */
  method SortGroupWindows(order: seq<ClassGroup>, members: map<string, seq<Task>>) returns (classGroups: seq<Task>)
    ensures classGroups == GroupTasks(order, members)
  {
    classGroups := [];
    for j := 0 to |order|
      invariant classGroups == GroupTasks(order[..j], members)
    {
      assert order[..j + 1][..j] == order[..j] && order[..j + 1][j] == order[j];
      assert GroupTasks(order[..j + 1], members) == GroupTasks(order[..j], members) + [GroupTaskOf(order[j], members)];
      classGroups := classGroups + [GroupTaskOf(order[j], members)];
    }
    assert order[..|order|] == order;
  }

  // ---------------------------------------------------------------------
  // The partition

  /** A new window task is counted once, in its group or in the no-class list. */
  lemma CountStep(windows: seq<Task>, noClass: seq<Task>, grouped: multiset<Task>, t: Task)
    requires multiset(windows) == grouped + multiset(noClass)
    ensures multiset([t] + windows) == (grouped + multiset{t}) + multiset(noClass)
    ensures multiset([t] + windows) == grouped + multiset([t] + noClass)
  {
  }

  /**
   * The window loop of wnck_tasklist_update_lists followed by the sort of
   * every group's windows.  Every list is built by prepending, so each holds
   * its windows in reverse screen order.
   */
  method Partition(f: Filter, screen: seq<Window>, startups: seq<Task>)
    returns (windows: seq<Task>, classGroups: seq<Task>, noClass: seq<Task>, skipped: seq<Window>, remaining: seq<Task>)
    ensures windows == Reversed(IncludedTasks(f, screen))
    ensures noClass == Reversed(UnclassedTasks(f, screen))
    ensures skipped == Reversed(SkippedWindows(f, screen))
    ensures remaining == StartupsLeft(f, screen, startups)
    ensures AllWindowTasks(windows) && AllScored(classGroups) && Populated(classGroups)
    ensures multiset(windows) == multiset(Flatten(classGroups)) + multiset(noClass)
    ensures WellFormedGroups(classGroups)
  {
    windows, noClass, skipped, remaining := [], [], [], startups;
    var order: seq<ClassGroup> := [];
    var members: map<string, seq<Task>> := map[];
    for i := 0 to |screen|
      invariant windows == Reversed(IncludedTasks(f, screen[..i]))
      invariant noClass == Reversed(UnclassedTasks(f, screen[..i]))
      invariant skipped == Reversed(SkippedWindows(f, screen[..i]))
      invariant remaining == StartupsLeft(f, screen[..i], startups)
      invariant AllWindowTasks(windows)
      invariant GroupsOk(order, members)
      invariant multiset(windows) == Members(order, members) + multiset(noClass)
    {
      var w := screen[i];
      PartitionStep(f, screen, startups, i);
      if IncludeWindow(f, w) {
        var t := WindowTask(w);
        remaining := RemoveStartupSequencesForWindow(remaining, w);
        ghost var grouped := Members(order, members);
        CountStep(windows, noClass, grouped, t);
        windows := [t] + windows;
        if w.classGroup.id != "" {
          order, members := AddToGroup(order, members, t);
        } else {
          noClass := [t] + noClass;
        }
      } else if IncludeInSkippedList(f, w) {
        skipped := [w] + skipped;
      }
    }
    assert screen[..|screen|] == screen;
    classGroups := SortGroupWindows(order, members);
    GroupTasksWindows(order, members);
    GroupsWellFormed(order, members);
  }

  /** Completing startup sequences only ever removes startup tasks. */
  lemma StartupsLeftStartups(f: Filter, screen: seq<Window>, startups: seq<Task>)
    requires AllStartupTasks(startups)
    ensures AllStartupTasks(StartupsLeft(f, screen, startups))
  {
    forall t | t in StartupsLeft(f, screen, startups) ensures t.StartupTask? {
      StartupsLeftMembers(f, screen, startups, t);
    }
  }

  /**
   * The lists update_lists leaves satisfy what the allocation relies on:
   * every listed window is in exactly one class-group task or in the
   * no-class list.
   */
  lemma PartitionLists(f: Filter, screen: seq<Window>, startups: seq<Task>,
                       windows: seq<Task>, classGroups: seq<Task>, noClass: seq<Task>, remaining: seq<Task>)
    requires AllStartupTasks(startups) && remaining == StartupsLeft(f, screen, startups)
    requires AllWindowTasks(windows) && AllScored(classGroups) && Populated(classGroups)
    requires multiset(windows) == multiset(Flatten(classGroups)) + multiset(noClass)
    ensures Lists(windows, classGroups, noClass, remaining)
  {
    StartupsLeftStartups(f, screen, startups);
  }
}

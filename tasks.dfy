/**
 * The entities of the tasklist as values: windows and class groups as the
 * window manager reports them, startup sequences, and the three kinds of
 * task (libwnck/task.h: WnckTaskType and the WnckTask record).  Also the
 * task orderings of libwnck/task.c (wnck_task_compare and
 * wnck_task_compare_alphabetically), the list sort that the tasklist applies
 * with them, the class-group label text and the image/label thresholds.
 */
module Tasks {
  import opened Base

  /** A WnckClassGroup: its identifier (empty for "no class") and its display name. */
  datatype ClassGroup = ClassGroup(id: string, name: string)

  /**
   * A WnckWindow, reduced to the attributes the tasklist consults.  Each
   * attribute stands for one query of the window manager.
   */
  datatype Window = Window(
    xid: nat,
    sortOrder: Int32,
    title: string,           // name for display, as used when sorting a group's windows
    classGroup: ClassGroup,
    skipTasklist: bool,      // WNCK_WINDOW_STATE_SKIP_TASKLIST
    pinned: bool,
    needsAttention: bool,    // the window or one of its transients needs attention
    workspace: Option<nat>,
    inViewport: bool,        // inside the viewport of the active workspace
    monitor: int,            // the monitor holding the window's centre point
    startupId: Option<string>,
    resClass: Option<string>, // WM_CLASS class part
    resName: Option<string>)  // WM_CLASS instance part

  /** An SnStartupSequence: a handle for its identity, its id and its WM_CLASS. */
  datatype Startup = Startup(handle: nat, id: Option<string>, wmclass: Option<string>, description: string)

  datatype Task =
    | GroupTask(group: ClassGroup, windows: seq<Task>, score: int)
    | WindowTask(win: Window)
    | StartupTask(startup: Startup)

  /**
   * The identity of a task.  The source compares task pointers; within one
   * rebuild of the lists a window has exactly one task (win_hash) and so has a
   * class group (class_group_hash).
   */
  datatype TaskKey = GroupKey(id: string) | WinKey(xid: nat) | StartupKey(handle: nat)

  function Key(t: Task): TaskKey
  {
    match t
    case GroupTask(g, _, _) => GroupKey(g.id)
    case WindowTask(w) => WinKey(w.xid)
    case StartupTask(s) => StartupKey(s.handle)
  }

  /** The class group a window or group task belongs to (task->class_group). */
  function ClassGroupOf(t: Task): Option<ClassGroup>
  {
    match t
    case GroupTask(g, _, _) => Some(g)
    case WindowTask(w) => Some(w.classGroup)
    case StartupTask(_) => None
  }

  // ---------------------------------------------------------------------
  // String collation

  /**
   * Collation of two names, standing for g_utf8_collate: lexicographic order
   * of code points.  Returns the sign of the comparison.
   */
  function Collate(a: string, b: string): (r: int)
    ensures r == -1 || r == 0 || r == 1
    ensures r == 0 <==> a == b
  {
    if a == [] && b == [] then 0
    else if a == [] then -1
    else if b == [] then 1
    else if a[0] < b[0] then -1
    else if a[0] > b[0] then 1
    else
      var r' := Collate(a[1..], b[1..]);
      assert r' == 0 <==> a == b by {
        assert a == [a[0]] + a[1..] && b == [b[0]] + b[1..];
      }
      r'
  }

  lemma {:induction false} CollateAntisymmetric(a: string, b: string)
    ensures Collate(a, b) == -Collate(b, a)
  {
    if a != [] && b != [] && a[0] == b[0] {
      CollateAntisymmetric(a[1..], b[1..]);
    }
  }

  lemma {:induction false} CollateTransitive(a: string, b: string, c: string)
    requires Collate(a, b) <= 0 && Collate(b, c) <= 0
    ensures Collate(a, c) <= 0
  {
    if a != [] && b != [] && c != [] && a[0] == b[0] == c[0] {
      CollateTransitive(a[1..], b[1..], c[1..]);
    }
  }

  // ---------------------------------------------------------------------
  // wnck_task_compare

  /**
   * The position a non-group task takes in the ordering: a window's sort
   * order, and G_MAXINT for a startup sequence, so that startup sequences
   * sort after every window.
   */
  function SortPosition(t: Task): Int32
    requires !t.GroupTask?
  {
    if t.WindowTask? then t.win.sortOrder else IntMax
  }

  function Sign(d: int): int { if d < 0 then -1 else if d > 0 then 1 else 0 }

  /** wnck_task_compare: class groups first, by name; then everything else by position. */
  function Compare(t1: Task, t2: Task): (r: int)
    ensures r == -1 || r == 0 || r == 1
    ensures t1.GroupTask? && !t2.GroupTask? ==> r == -1
    ensures !t1.GroupTask? && t2.GroupTask? ==> r == 1
    ensures t1.GroupTask? && t2.GroupTask? ==> (r == 0 <==> t1.group.name == t2.group.name)
    ensures t1.GroupTask? && t2.GroupTask? ==> (r < 0 <==> Collate(t1.group.name, t2.group.name) < 0)
    ensures t1.WindowTask? && t2.WindowTask? ==>
      (r < 0 <==> t1.win.sortOrder < t2.win.sortOrder) && (r == 0 <==> t1.win.sortOrder == t2.win.sortOrder)
    ensures t1.WindowTask? && t2.StartupTask? ==> r <= 0
    ensures t1.StartupTask? && t2.StartupTask? ==> r == 0
  {
    if t1.GroupTask? then
      if t2.GroupTask? then Collate(t1.group.name, t2.group.name) else -1
    else if t2.GroupTask? then 1
    else Sign(SortPosition(t1) - SortPosition(t2))
  }

  lemma CompareWindowBeforeStartup(w: Task, s: Task)
    requires w.WindowTask? && s.StartupTask? && w.win.sortOrder < IntMax
    ensures Compare(w, s) == -1 && Compare(s, w) == 1
  {
  }

  // ---------------------------------------------------------------------
  // Text of a task (wnck_task_get_text with icon text and without state)

  function DigitChar(d: nat): char
    requires d < 10
  {
    (48 + d) as char
  }

  predicate IsDigit(c: char) { '0' <= c <= '9' }

  function DigitValue(c: char): nat
    requires IsDigit(c)
  {
    (c as int) - 48
  }

  /** Decimal digits of n, as printf's %d writes a non-negative count. */
  function NatToString(n: nat): (s: string)
    ensures |s| >= 1
    ensures forall i :: 0 <= i < |s| ==> IsDigit(s[i])
    decreases n
  {
    if n < 10 then [DigitChar(n)] else NatToString(n / 10) + [DigitChar(n % 10)]
  }

  /** Reads a string of decimal digits back as a number. */
  function ParseNat(s: string): nat
    requires forall i :: 0 <= i < |s| ==> IsDigit(s[i])
  {
    if s == [] then 0 else ParseNat(s[..|s| - 1]) * 10 + DigitValue(s[|s| - 1])
  }

  lemma {:induction false} ParseNatToString(n: nat)
    ensures ParseNat(NatToString(n)) == n
    decreases n
  {
    var s := NatToString(n);
    if n >= 10 {
      ParseNatToString(n / 10);
      assert s[..|s| - 1] == NatToString(n / 10);
    }
  }

  /**
   * The label of a class-group button: "name (n)", or "(n)" when the group's
   * name is empty, where n is the number of windows of the group.
   */
  function GroupLabel(name: string, n: nat): string
  {
    if |name| != 0 then name + " (" + NatToString(n) + ")" else "(" + NatToString(n) + ")"
  }

  /** The last position of c in s, if any. */
  function LastIndexOf(s: string, c: char): (r: Option<nat>)
    ensures r.Some? ==> r.value < |s| && s[r.value] == c
    ensures r.Some? ==> forall j :: r.value < j < |s| ==> s[j] != c
    ensures r.None? ==> forall j :: 0 <= j < |s| ==> s[j] != c
  {
    if s == [] then None
    else if s[|s| - 1] == c then Some(|s| - 1)
    else LastIndexOf(s[..|s| - 1], c)
  }

  /** Recovers the name and the window count from a class-group label. */
  function ParseGroupLabel(text: string): Option<(string, nat)>
  {
    if |text| == 0 || text[|text| - 1] != ')' then None
    else
      var body := text[..|text| - 1];
      match LastIndexOf(body, '(')
      case None => None
      case Some(p) =>
        var digits := body[p + 1..];
        var prefix := body[..p];
        if |digits| == 0 || exists i :: 0 <= i < |digits| && !IsDigit(digits[i]) then None
        else if prefix == [] then Some(([], ParseNat(digits)))
        else if prefix[|prefix| - 1] != ' ' || |prefix| == 1 then None
        else Some((prefix[..|prefix| - 1], ParseNat(digits)))
  }

  /** The label text determines the group's name and window count. */
  lemma GroupLabelRoundTrip(name: string, n: nat)
    ensures ParseGroupLabel(GroupLabel(name, n)) == Some((name, n))
  {
    var d := NatToString(n);
    var head := if |name| != 0 then name + " (" else "(";
    assert GroupLabel(name, n) == head + d + ")";
    LabelParts(head, d);
    ParseNatToString(n);
    if |name| != 0 {
      assert head[..|head| - 1] == name + " ";
      assert (name + " ")[..|name|] == name;
    } else {
      assert head[..|head| - 1] == [];
    }
  }

  /** In "head digits)" with head ending in '(', the parser finds that parenthesis and the digits after it. */
  lemma LabelParts(head: string, d: string)
    requires |head| >= 1 && head[|head| - 1] == '(' && |d| >= 1 && forall j :: 0 <= j < |d| ==> IsDigit(d[j])
    ensures var text := head + d + ")";
      var body := text[..|text| - 1];
      text[|text| - 1] == ')' && body == head + d && LastIndexOf(body, '(') == Some(|head| - 1) &&
      body[|head|..] == d && body[..|head| - 1] == head[..|head| - 1]
  {
    var text := head + d + ")";
    var body := text[..|text| - 1];
    assert body == head + d;
    forall j | |head| - 1 < j < |body| ensures body[j] != '(' {
      assert body[j] == d[j - |head|];
    }
    LastIndexOfAfter(body, '(', |head| - 1);
    assert body[|head|..] == d;
    assert body[..|head| - 1] == head[..|head| - 1];
  }

  lemma {:induction false} LastIndexOfAfter(s: string, c: char, p: nat)
    requires p < |s| && s[p] == c
    requires forall j :: p < j < |s| ==> s[j] != c
    ensures LastIndexOf(s, c) == Some(p)
  {
    if p < |s| - 1 {
      LastIndexOfAfter(s[..|s| - 1], c, p);
    }
  }

  /** wnck_task_get_text (icon text, no state) for each kind of task. */
  function Text(t: Task): string
  {
    match t
    case GroupTask(g, ws, _) => GroupLabel(g.name, |ws|)
    case WindowTask(w) => w.title
    case StartupTask(s) => s.description
  }

  /**
   * wnck_task_compare_alphabetically: the collation of the two button texts.
   * Two tasks tie exactly when their texts are equal, so two class groups
   * tie exactly when they have the same name and the same number of windows.
   */
  function CompareAlphabetically(t1: Task, t2: Task): (r: int)
    ensures r == -1 || r == 0 || r == 1
    ensures r == 0 <==> Text(t1) == Text(t2)
    ensures t1.GroupTask? && t2.GroupTask? ==>
      (r == 0 <==> t1.group.name == t2.group.name && |t1.windows| == |t2.windows|)
  {
    if t1.GroupTask? && t2.GroupTask? then
      GroupLabelRoundTrip(t1.group.name, |t1.windows|);
      GroupLabelRoundTrip(t2.group.name, |t2.windows|);
      Collate(Text(t1), Text(t2))
    else Collate(Text(t1), Text(t2))
  }

  // ---------------------------------------------------------------------
  // The two orderings and the list sort

  datatype Ordering = ByTaskOrder | ByText

  function Cmp(o: Ordering, a: Task, b: Task): int
  {
    match o
    case ByTaskOrder => Compare(a, b)
    case ByText => CompareAlphabetically(a, b)
  }

  lemma CmpAntisymmetric(o: Ordering, a: Task, b: Task)
    ensures Cmp(o, a, b) == -Cmp(o, b, a)
  {
    if o.ByText? {
      CollateAntisymmetric(Text(a), Text(b));
    } else if a.GroupTask? && b.GroupTask? {
      CollateAntisymmetric(a.group.name, b.group.name);
    }
  }

  lemma CmpTransitive(o: Ordering, a: Task, b: Task, c: Task)
    requires Cmp(o, a, b) <= 0 && Cmp(o, b, c) <= 0
    ensures Cmp(o, a, c) <= 0
  {
    if o.ByText? {
      CollateTransitive(Text(a), Text(b), Text(c));
    } else if a.GroupTask? && b.GroupTask? && c.GroupTask? {
      CollateTransitive(a.group.name, b.group.name, c.group.name);
    }
  }

  ghost predicate SortedBy(o: Ordering, s: seq<Task>)
  {
    forall i, j :: 0 <= i < j < |s| ==> Cmp(o, s[i], s[j]) <= 0
  }

  /**
   * Inserts x before the first element that is not smaller than it; the
   * elements x passes are strictly smaller, so equal elements keep the order
   * in which they were given.
   */
  function Insert(o: Ordering, x: Task, s: seq<Task>): (r: seq<Task>)
    ensures |r| == |s| + 1
  {
    if s == [] then [x]
    else if Cmp(o, x, s[0]) <= 0 then [x] + s
    else [s[0]] + Insert(o, x, s[1..])
  }

  /** Inserting adds x and keeps every element that was there. */
  lemma {:induction false} InsertPermutes(o: Ordering, x: Task, s: seq<Task>)
    ensures multiset(Insert(o, x, s)) == multiset(s) + multiset{x}
  {
    if s != [] {
      var head, tail := s[0], s[1..];
      assert s == [head] + tail;
      if Cmp(o, x, head) > 0 {
        InsertPermutes(o, x, tail);
        assert Insert(o, x, s) == [head] + Insert(o, x, tail);
      }
    }
  }

  lemma {:induction false} InsertSorted(o: Ordering, x: Task, s: seq<Task>)
    requires SortedBy(o, s)
    ensures SortedBy(o, Insert(o, x, s))
  {
    if s != [] {
      if Cmp(o, x, s[0]) <= 0 {
        InsertFrontSorted(o, x, s);
      } else {
        var rest := Insert(o, x, s[1..]);
        SortedTail(o, s);
        InsertSorted(o, x, s[1..]);
        CmpAntisymmetric(o, x, s[0]);
        forall j | 0 <= j < |rest| ensures Cmp(o, s[0], rest[j]) <= 0 {
          HeadBelowInserted(o, x, s, rest[j]);
        }
        PrependSorted(o, s[0], rest);
      }
    }
  }

  lemma SortedTail(o: Ordering, s: seq<Task>)
    requires SortedBy(o, s) && s != []
    ensures SortedBy(o, s[1..])
  {
    forall i, j | 0 <= i < j < |s| - 1 ensures Cmp(o, s[1..][i], s[1..][j]) <= 0 {
      assert s[1..][i] == s[i + 1] && s[1..][j] == s[j + 1];
    }
  }

  lemma InsertFrontSorted(o: Ordering, x: Task, s: seq<Task>)
    requires SortedBy(o, s) && s != [] && Cmp(o, x, s[0]) <= 0
    ensures SortedBy(o, [x] + s)
  {
    forall j | 0 <= j < |s| ensures Cmp(o, x, s[j]) <= 0 {
      if j > 0 { CmpTransitive(o, x, s[0], s[j]); }
    }
    PrependSorted(o, x, s);
  }

  lemma HeadBelowInserted(o: Ordering, x: Task, s: seq<Task>, e: Task)
    requires SortedBy(o, s) && s != [] && Cmp(o, s[0], x) <= 0
    requires e in multiset(Insert(o, x, s[1..]))
    ensures Cmp(o, s[0], e) <= 0
  {
    InsertPermutes(o, x, s[1..]);
    if e != x {
      assert e in multiset(s[1..]);
      var k :| 0 <= k < |s[1..]| && s[1..][k] == e;
      assert s[k + 1] == e;
    }
  }

  lemma PrependSorted(o: Ordering, h: Task, rest: seq<Task>)
    requires SortedBy(o, rest)
    requires forall j :: 0 <= j < |rest| ==> Cmp(o, h, rest[j]) <= 0
    ensures SortedBy(o, [h] + rest)
  {
    var r := [h] + rest;
    assert r[0] == h;
    assert forall j :: 0 < j < |r| ==> r[j] == rest[j - 1];
    forall i, j | 0 < i < j < |r| ensures Cmp(o, r[i], r[j]) <= 0 {
      assert Cmp(o, rest[i - 1], rest[j - 1]) <= 0;
    }
  }

  /**
   * The list sort the tasklist applies (g_list_sort): a stable sort, so the
   * result is the unique ordered permutation that keeps equal elements in
   * their given order.
   */
  function Sort(o: Ordering, s: seq<Task>): (r: seq<Task>)
    ensures |r| == |s|
  {
    if s == [] then [] else Insert(o, s[0], Sort(o, s[1..]))
  }

  /** The sort returns its input, reordered, and ordered. */
  lemma {:induction false} SortSortedPermutation(o: Ordering, s: seq<Task>)
    ensures multiset(Sort(o, s)) == multiset(s)
    ensures SortedBy(o, Sort(o, s))
  {
    if s != [] {
      SortSortedPermutation(o, s[1..]);
      InsertSorted(o, s[0], Sort(o, s[1..]));
      InsertPermutes(o, s[0], Sort(o, s[1..]));
      assert s == [s[0]] + s[1..];
    }
  }

  // ---------------------------------------------------------------------
  // wnck_task_size_allocated: which parts of a button are shown

  const MiniIconSize: int := 16
  const ButtonPadding: int := 4

  datatype Content = Content(showImage: bool, showLabel: bool)

  /**
   * A button narrower than the icon plus padding shows only its label; one
   * that fits the icon but not the extra padding shows only its image; a
   * wider one shows both.
   */
  function ButtonContent(width: int, paddingLeft: int, paddingRight: int): (c: Content)
    ensures var minImage := MiniIconSize + paddingLeft + paddingRight + 2 * ButtonPadding;
      (c.showImage <==> width >= minImage) &&
      (c.showLabel <==> (width < minImage || width >= minImage + 2 * ButtonPadding))
    ensures c.showImage || c.showLabel
  {
    var minImage := MiniIconSize + paddingLeft + paddingRight + 2 * ButtonPadding;
    if width < minImage + 2 * ButtonPadding && width >= minImage then Content(true, false)
    else if width < minImage then Content(false, true)
    else Content(true, true)
  }

  /** Widening a button never hides its image. */
  lemma ButtonContentMonotone(w1: int, w2: int, pl: int, pr: int)
    requires w1 <= w2 && ButtonContent(w1, pl, pr).showImage
    ensures ButtonContent(w2, pl, pr).showImage
  {
  }
}

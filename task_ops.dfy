/**
 * Operations of a single task button: reordering windows by drag and drop,
 * dimming the icon of a minimized window, and the guard that keeps a
 * button's pressed state under the tasklist's control.
 */
module TaskOps {
  import opened Base
  import Geometry

  // ---------------------------------------------------------------------
  // Drag and drop between window buttons

  /** `sizeof (gulong)` on the LP64 platforms the tasklist is built for. */
  const SizeofGulong: int := 8

  /** The selection a window button hands out when it is dragged. */
  datatype DropData = DropData(length: int, format: int, xid: nat)

  /** What a drop on a window button did. */
  datatype DropResult =
    | Refused
    | ActivatedTarget
    | NoSuchWindow
    | Moved(window: nat, moveToActiveWorkspace: bool)

  /** The drag source: the dragged window's XID as raw bytes of 8-bit format. */
  function DragDataGet(xid: nat): (d: DropData)
    ensures Accepted(d) && d.xid == xid
  {
    DropData(SizeofGulong, 8, xid)
  }

  predicate Accepted(d: DropData) {
    d.length == SizeofGulong && d.format == 8
  }

  /** The position of the first window of the screen with the given XID. */
  function FirstWithXid(xids: seq<nat>, x: nat): (r: Option<nat>)
    ensures r.None? <==> x !in xids
    ensures r.Some? ==>
      (r.value < |xids| && xids[r.value] == x && forall j :: 0 <= j < r.value ==> xids[j] != x)
  {
    if xids == [] then None
    else if xids[0] == x then Some(0)
    else match FirstWithXid(xids[1..], x)
      case None => None
      case Some(i) => Some(i + 1)
  }

  /**
   * The sort order the dragged window receives: the target's, or one past it
   * when the dragged window came from before the target. The comparison
   * and the increment are done in `guint`.
   */
  function DropPoint(orders: seq<Int32>, dragged: nat, target: nat): U32
    requires dragged < |orders| && target < |orders|
  {
    var o := ToU32(orders[dragged]);
    var t := ToU32(orders[target]);
    if o < t then IncU32(t) else t
  }

  /** A window at or after the drop point moves up by one (in `guint`, stored back as `gint`). */
  function Bump(order: Int32, dropPoint: U32): Int32 {
    if ToU32(order) >= dropPoint then FromU32(IncU32(ToU32(order))) else order
  }

  /** The sort orders after a drop: every window is bumped, then the dragged one takes the drop point. */
  function Renumbered(orders: seq<Int32>, dragged: nat, dropPoint: U32): (r: seq<Int32>)
    requires dragged < |orders|
    ensures |r| == |orders|
  {
    seq(|orders|, k requires 0 <= k < |orders| =>
      if k == dragged then FromU32(dropPoint) else Bump(orders[k], dropPoint))
  }

  /** A drop that arrives within the double-click time of the drag's start. */
  predicate DoubleClick(time: U32, dragStartTime: U32, doubleClickTime: Int32) {
    SubU32(time, dragStartTime) < ToU32(doubleClickTime)
  }

  /**
   * A drop onto window button `target`. `xids`, `orders` and `pinned`
   * describe the screen's windows in the screen's order; `orders` holds their
   * sort orders, which the drop rewrites.
   */
  method DragDataReceived(xids: seq<nat>, orders: array<Int32>, pinned: seq<bool>,
                          includeAllWorkspaces: bool, d: DropData, target: nat,
                          time: U32, dragStartTime: U32, doubleClickTime: Int32)
    returns (r: DropResult)
    requires orders.Length == |xids| == |pinned| && target < |xids|
    modifies orders
    ensures !Accepted(d) ==> r == Refused && orders[..] == old(orders[..])
    ensures Accepted(d) && d.xid !in xids ==> r == NoSuchWindow && orders[..] == old(orders[..])
    ensures Accepted(d) && FirstWithXid(xids, d.xid) == Some(target) &&
      DoubleClick(time, dragStartTime, doubleClickTime)
      ==> r == ActivatedTarget && orders[..] == old(orders[..])
    ensures Accepted(d) && d.xid in xids &&
      !(FirstWithXid(xids, d.xid) == Some(target) && DoubleClick(time, dragStartTime, doubleClickTime))
      ==> (var i := FirstWithXid(xids, d.xid).value;
           r == Moved(i, !includeAllWorkspaces && !pinned[i]) &&
           orders[..] == Renumbered(old(orders[..]), i, DropPoint(old(orders[..]), i, target)))
  {
    if d.length != SizeofGulong || d.format != 8 {
      return Refused;
    }
    var found: Option<nat> := None;
    var newOrder: U32 := 0;
    var i := 0;
    while i < |xids|
      invariant 0 <= i <= |xids|
      invariant forall j :: 0 <= j < i ==> xids[j] != d.xid
    {
      if xids[i] == d.xid {
        var oldOrder := ToU32(orders[i]);
        newOrder := ToU32(orders[target]);
        if oldOrder < newOrder {
          newOrder := IncU32(newOrder);
        }
        found := Some(i);
        break;
      }
      i := i + 1;
    }
    assert found.Some? ==>
      (found == FirstWithXid(xids, d.xid) && newOrder == DropPoint(orders[..], found.value, target));
    assert found.None? ==> d.xid !in xids;

    if found == Some(target) && SubU32(time, dragStartTime) < ToU32(doubleClickTime) {
      return ActivatedTarget;
    }
    if found.None? {
      return NoSuchWindow;
    }
    var dragged := found.value;
    ghost var before := orders[..];
    var k := 0;
    while k < orders.Length
      invariant 0 <= k <= orders.Length
      invariant forall j :: 0 <= j < k ==> orders[j] == Bump(before[j], newOrder)
      invariant forall j :: k <= j < orders.Length ==> orders[j] == before[j]
    {
      var order := ToU32(orders[k]);
      if order >= newOrder {
        orders[k] := FromU32(IncU32(order));
      }
      k := k + 1;
    }
    orders[dragged] := FromU32(newOrder);
    assert orders[..] == Renumbered(before, dragged, newOrder);
    r := Moved(dragged, !includeAllWorkspaces && !pinned[dragged]);
  }

  /** The data a window button hands out is always accepted by a drop. */
  lemma DragRoundTrip(xids: seq<nat>, k: nat)
    requires k < |xids|
    ensures Accepted(DragDataGet(xids[k])) && FirstWithXid(xids, DragDataGet(xids[k]).xid).Some?
  {
  }

  /**
   * Sort orders that are non-negative and leave room for one increment, so
   * that neither the `guint` comparison nor the increment wraps.
   */
  predicate InRange(orders: seq<Int32>) {
    forall k :: 0 <= k < |orders| ==> 0 <= orders[k] < IntMax
  }

  /** Without wrap-around, a drop keeps every other pair of windows in their relative order. */
  lemma RenumberedKeepsOrder(orders: seq<Int32>, dragged: nat, target: nat, j: nat, k: nat)
    requires dragged < |orders| && target < |orders| && InRange(orders)
    requires j < |orders| && k < |orders| && j != dragged && k != dragged
    ensures var r := Renumbered(orders, dragged, DropPoint(orders, dragged, target));
      (orders[j] < orders[k] <==> r[j] < r[k]) && (orders[j] == orders[k] <==> r[j] == r[k])
  {
  }

  /**
   * Without wrap-around, the dragged window lands just after the target when
   * it came from before it, and just before the target otherwise: the windows
   * that end up before it are exactly those ordered before the target (and the
   * target itself in the first case).
   */
  lemma DropLandsBesideTarget(orders: seq<Int32>, dragged: nat, target: nat, k: nat)
    requires dragged < |orders| && target < |orders| && InRange(orders)
    requires k < |orders| && k != dragged
    ensures var r := Renumbered(orders, dragged, DropPoint(orders, dragged, target));
      r[k] != r[dragged] &&
      (r[k] < r[dragged] <==>
        orders[k] < orders[target] ||
        (orders[dragged] < orders[target] && orders[k] == orders[target]))
  {
  }

  /** Without wrap-around, the dragged window takes the target's place or the one right after it. */
  lemma DropNextToTarget(orders: seq<Int32>, dragged: nat, target: nat)
    requires dragged < |orders| && target < |orders| && InRange(orders) && dragged != target
    ensures var r := Renumbered(orders, dragged, DropPoint(orders, dragged, target));
      if orders[dragged] < orders[target]
      then r[target] == orders[target] && r[dragged] == orders[target] + 1
      else r[dragged] == orders[target] && r[target] == orders[target] + 1
  {
  }

  /** At G_MAXINT the `guint` increment stored back in a `gint` wraps to G_MININT. */
  lemma BumpWrapsAtMax(dropPoint: U32)
    requires dropPoint <= IntMax
    ensures Bump(IntMax, dropPoint) == -0x8000_0000
  {
  }

  // ---------------------------------------------------------------------
  // Dimming the icon of a minimized window

  /** Offset of the alpha byte of pixel `x` of row `y` in a 4-channel buffer. */
  function AlphaOffset(rowStride: nat, y: nat, x: nat): nat {
    y * rowStride + 4 * x + 3
  }

  /**
   * Byte `b` is the alpha byte of a pixel that comes before pixel `x` of
   * row `y` in the scan of a `w`-pixel-wide image.
   */
  ghost predicate AlphaBefore(b: nat, w: nat, rowStride: nat, y: nat, x: nat) {
    rowStride > 0 &&
    var row, off := b / rowStride, b % rowStride;
    off % 4 == 3 && off / 4 < w && (row < y || (row == y && off / 4 < x))
  }

  /** The alpha bytes of an image with `h` rows. */
  ghost predicate AlphaByte(b: nat, w: nat, h: nat, rowStride: nat) {
    AlphaBefore(b, w, rowStride, h, 0)
  }

  /** A pixel buffer holding `h` rows of `w` 4-byte pixels, `rowStride` bytes apart. */
  predicate Holds(length: nat, w: nat, h: nat, rowStride: nat) {
    rowStride >= 4 * w && (h == 0 || (h - 1) * rowStride + 4 * w <= length)
  }

  /** The alpha byte of pixel (x, y) is found at exactly that row and offset. */
  lemma AlphaOffsetPosition(w: nat, rowStride: nat, y: nat, x: nat)
    requires x < w && rowStride >= 4 * w
    ensures AlphaOffset(rowStride, y, x) / rowStride == y
    ensures AlphaOffset(rowStride, y, x) % rowStride == 4 * x + 3
  {
    var p := AlphaOffset(rowStride, y, x);
    Geometry.DivUnique(p, rowStride, y, 4 * x + 3);
  }

  /** Scanning one more pixel adds exactly that pixel's alpha byte, which was not scanned before. */
  lemma AlphaStep(b: nat, w: nat, rowStride: nat, y: nat, x: nat)
    requires x < w && rowStride >= 4 * w
    ensures AlphaBefore(b, w, rowStride, y, x + 1) <==>
      AlphaBefore(b, w, rowStride, y, x) || b == AlphaOffset(rowStride, y, x)
    ensures !AlphaBefore(AlphaOffset(rowStride, y, x), w, rowStride, y, x)
  {
    AlphaOffsetPosition(w, rowStride, y, x);
    var row, off := b / rowStride, b % rowStride;
    assert b == row * rowStride + off;
    if row == y && off == 4 * x + 3 {
      assert b == AlphaOffset(rowStride, y, x);
    }
  }

  /** Finishing a row is the same as starting the next one. */
  lemma AlphaRowStep(b: nat, w: nat, rowStride: nat, y: nat)
    ensures AlphaBefore(b, w, rowStride, y, w) <==> AlphaBefore(b, w, rowStride, y + 1, 0)
  {
  }

  /** Every alpha byte of the image lies inside the buffer. */
  lemma AlphaInBuffer(length: nat, w: nat, h: nat, rowStride: nat, y: nat, x: nat)
    requires Holds(length, w, h, rowStride) && y < h && x < w
    ensures AlphaOffset(rowStride, y, x) < length
  {
    Geometry.MulLeft(y, h - 1, rowStride);
  }

  /** The alpha bytes found by position are the pixels' alpha bytes. */
  lemma AlphaByteOffsets(w: nat, h: nat, rowStride: nat, y: nat, x: nat)
    requires rowStride >= 4 * w && y < h && x < w
    ensures AlphaByte(AlphaOffset(rowStride, y, x), w, h, rowStride)
  {
    AlphaOffsetPosition(w, rowStride, y, x);
  }

  /** The buffer `orig` with the alpha bytes scanned before pixel (x, y) halved. */
  ghost function Dimmed(orig: seq<Byte>, w: nat, rowStride: nat, y: nat, x: nat): (r: seq<Byte>)
    ensures |r| == |orig|
  {
    seq(|orig|, b requires 0 <= b < |orig| =>
      if AlphaBefore(b, w, rowStride, y, x) then orig[b] / 2 else orig[b])
  }

  /** Dimming one more pixel halves its alpha byte, which had not been touched. */
  lemma DimmedStep(orig: seq<Byte>, w: nat, rowStride: nat, y: nat, x: nat)
    requires x < w && rowStride >= 4 * w && AlphaOffset(rowStride, y, x) < |orig|
    ensures var p := AlphaOffset(rowStride, y, x);
      var before := Dimmed(orig, w, rowStride, y, x);
      Dimmed(orig, w, rowStride, y, x + 1) == before[p := before[p] / 2]
  {
    var p := AlphaOffset(rowStride, y, x);
    var before := Dimmed(orig, w, rowStride, y, x);
    var after := Dimmed(orig, w, rowStride, y, x + 1);
    forall b | 0 <= b < |orig|
      ensures after[b] == before[p := before[p] / 2][b]
    {
      AlphaStep(b, w, rowStride, y, x);
    }
    AlphaStep(p, w, rowStride, y, x);
  }

  /** Before the scan starts nothing is dimmed. */
  lemma DimmedNone(orig: seq<Byte>, w: nat, rowStride: nat)
    ensures Dimmed(orig, w, rowStride, 0, 0) == orig
  {
    forall b | 0 <= b < |orig|
      ensures Dimmed(orig, w, rowStride, 0, 0)[b] == orig[b]
    {
      NothingBeforeStart(b, w, rowStride);
    }
  }

  /** No byte comes before the first pixel of the first row. */
  lemma NothingBeforeStart(b: nat, w: nat, rowStride: nat)
    ensures !AlphaBefore(b, w, rowStride, 0, 0)
  {
    if rowStride > 0 {
      Geometry.DivUnique(0, rowStride, 0, 0);
      Geometry.DivMonotone(0, b, rowStride);
      Geometry.DivMonotone(0, b % rowStride, 4);
    }
  }

  /** Dimming a whole row is the same as dimming up to the start of the next. */
  lemma DimmedRow(orig: seq<Byte>, w: nat, rowStride: nat, y: nat)
    ensures Dimmed(orig, w, rowStride, y, w) == Dimmed(orig, w, rowStride, y + 1, 0)
  {
    forall b | 0 <= b < |orig|
      ensures Dimmed(orig, w, rowStride, y, w)[b] == Dimmed(orig, w, rowStride, y + 1, 0)[b]
    {
      AlphaRowStep(b, w, rowStride, y);
    }
  }

  /**
   * Halves the alpha channel of every pixel of a `w` by `h` image stored
   * with 4 bytes per pixel, and leaves every other byte as it was.
   */
  method DimIcon(pixels: array<Byte>, w: nat, h: nat, rowStride: nat)
    requires Holds(pixels.Length, w, h, rowStride)
    modifies pixels
    ensures forall b :: 0 <= b < pixels.Length ==>
      pixels[b] == if AlphaByte(b, w, h, rowStride) then old(pixels[b]) / 2 else old(pixels[b])
  {
    ghost var orig := pixels[..];
    DimmedNone(orig, w, rowStride);
    var row := 0;
    var y := 0;
    while y < h
      invariant 0 <= y <= h && row == y * rowStride
      invariant pixels[..] == Dimmed(orig, w, rowStride, y, 0)
    {
      var offset := row;
      var x := 0;
      while x < w
        invariant 0 <= x <= w && offset == row + 4 * x
        invariant pixels[..] == Dimmed(orig, w, rowStride, y, x)
      {
        AlphaInBuffer(pixels.Length, w, h, rowStride, y, x);
        DimmedStep(orig, w, rowStride, y, x);
        pixels[offset + 3] := pixels[offset + 3] / 2;
        offset := offset + 4;
        x := x + 1;
      }
      DimmedRow(orig, w, rowStride, y);
      row := row + rowStride;
      y := y + 1;
    }
    assert forall b :: 0 <= b < pixels.Length ==> pixels[b] == Dimmed(orig, w, rowStride, h, 0)[b];
  }

  // ---------------------------------------------------------------------
  // The pressed state of a task button

  /**
   * A toggle button together with its task's `really_toggling` flag, which is
   * set while the tasklist itself changes the pressed state.
   */
  datatype Button = Button(active: bool, reallyToggling: bool)

  /** What a signal emission did: the button afterwards and whether the task's action ran. */
  datatype Reaction = Reaction(button: Button, actionRun: bool)

  function ToggledRank(b: Button): nat { if b.reallyToggling then 0 else 2 }
  function SetActiveRank(b: Button): nat { if b.reallyToggling then 1 else 3 }

  /**
   * The task's "toggled" handler. When the tasklist is changing the state
   * itself it does nothing; otherwise it undoes the toggle (with the flag set,
   * so the undo's own emission is ignored) and runs the task's action.
   */
  function Toggled(b: Button): (r: Reaction)
    ensures r.button == if b.reallyToggling then b else b.(active := !b.active)
    ensures r.actionRun <==> !b.reallyToggling
    decreases ToggledRank(b)
  {
    if b.reallyToggling then Reaction(b, false)
    else
      var undone := GtkSetActive(b.(reallyToggling := true), !b.active);
      Reaction(undone.button.(reallyToggling := false), true)
  }

  /**
   * The toolkit's set-active: a real change flips the state and emits
   * "toggled". The new state sticks only while the flag is raised; otherwise
   * the handler undoes it and the action runs.
   */
  function GtkSetActive(b: Button, active: bool): (r: Reaction)
    ensures r.button == if b.reallyToggling then b.(active := active) else b
    ensures r.actionRun <==> !b.reallyToggling && b.active != active
    decreases SetActiveRank(b)
  {
    if b.active == active then Reaction(b, false)
    else Toggled(b.(active := active))
  }

  /**
   * A click on the button: the toolkit flips its state and emits "toggled".
   * A click outside the tasklist's own updates never changes whether the
   * button is pressed, and always passes the click on to the task's action;
   * while the tasklist is updating the state, the toggle stays and nothing
   * runs.
   */
  function Click(b: Button): (r: Reaction)
    ensures !b.reallyToggling ==> r.button == b && r.actionRun
    ensures b.reallyToggling ==> r.button == b.(active := !b.active) && !r.actionRun
  {
    GtkSetActive(b, !b.active)
  }

  /**
   * The tasklist's own change of a button's state: the flag is raised around
   * the toolkit call, so the new state sticks and no action runs.
   */
  function TasklistSetActive(b: Button, active: bool): (r: Button)
    requires !b.reallyToggling
    ensures r.active == active && !r.reallyToggling
    ensures !GtkSetActive(b.(reallyToggling := true), active).actionRun
  {
    GtkSetActive(b.(reallyToggling := true), active).button.(reallyToggling := false)
  }
}

/** How the window list, the drag state and the dirty list change with each operation, and
    why the dirty list then covers every pixel that changed (src/kernel/window.c). */
module DeskRules {
  import opened Common
  import opened Painting

  /** Only the first sixteen windows are ever drawn or hit. */
  function Shown(wins: seq<Win>): seq<Win> {
    if |wins| <= MAX_WINDOWS then wins else wins[..MAX_WINDOWS]
  }

  const TITLE_COLOR: int := 0xFF555555

  /** The window that window_create makes. */
  function NewWin(id: nat, x: int, y: int, w: nat, h: nat, bg: int): Win {
    Win(id, x, y, w, h, TITLE_COLOR, bg, None, 0)
  }

  /** Windows for which the queued outer rectangle is too small (OuterRectSuffices). */
  predicate TooSmall(win: Win) {
    !((win.w >= 1 && win.h >= 20) || (win.w == 0 && win.h == 0))
  }

  predicate NoneTooSmall(wins: seq<Win>) {
    forall k {:trigger wins[k]} :: 0 <= k < |wins| ==> !TooSmall(wins[k])
  }

  /** Buffers fit their windows and ids are already given out. */
  ghost predicate WinsOk(wins: seq<Win>, nextId: nat) {
    forall k {:trigger wins[k]} :: 0 <= k < |wins| ==> WinOk(wins[k]) && wins[k].id < nextId
  }

  ghost predicate BuffersFit(wins: seq<Win>) {
    forall k {:trigger wins[k]} :: 0 <= k < |wins| ==> WinOk(wins[k])
  }

  /** A buffer of width times body height holds a pixel for every point of the body. */
  lemma BufferFits(win: Win, pixels: seq<int>)
    requires win.h >= TITLE_HEIGHT && |pixels| == win.w * (win.h - TITLE_HEIGHT)
    ensures WinOk(win.(buffer := Some(pixels)))
  {
    var full := win.(buffer := Some(pixels));
    forall x, y | Covers(Body(full), x, y) ensures 0 <= BufferIndex(full, x, y) < |pixels| {
      var row, col := y - (win.y + TITLE_HEIGHT), x - win.x;
      assert row * win.w + col < (row + 1) * win.w;
      assert (row + 1) * win.w <= (win.h - TITLE_HEIGHT) * win.w;
    }
  }

  lemma OutsideOuter(win: Win, rects: seq<Rect>, k: nat, x: int, y: int)
    requires !TooSmall(win) && k < |rects| && rects[k] == Outer(win) && !Covered(rects, x, y)
    ensures WinPixel(win, x, y).None?
  {
    OuterRectSuffices(win);
    assert !Covers(rects[k], x, y);
  }

  // ---------------------------------------------------------------- queueing several rectangles

  function QueueAll(dirty: seq<Rect>, screen: Rect, rects: seq<Rect>): seq<Rect>
    decreases |rects|
  {
    if rects == [] then dirty else QueueAll(Queue(dirty, screen, rects[0]), screen, rects[1..])
  }

  predicate AnyOverflow(dirty: seq<Rect>, screen: Rect, rects: seq<Rect>)
    decreases |rects|
  {
    rects != [] &&
    (Overflows(dirty, screen, rects[0]) || AnyOverflow(Queue(dirty, screen, rects[0]), screen, rects[1..]))
  }

  lemma {:induction false} QueueOneMore(dirty: seq<Rect>, screen: Rect, rects: seq<Rect>, r: Rect)
    ensures QueueAll(dirty, screen, rects + [r]) == Queue(QueueAll(dirty, screen, rects), screen, r)
    ensures AnyOverflow(dirty, screen, rects + [r]) <==>
      AnyOverflow(dirty, screen, rects) || Overflows(QueueAll(dirty, screen, rects), screen, r)
    decreases |rects|
  {
    if rects == [] {
      assert [r][1..] == [];
    } else {
      assert (rects + [r])[1..] == rects[1..] + [r];
      QueueOneMore(Queue(dirty, screen, rects[0]), screen, rects[1..], r);
    }
  }

  lemma {:induction false} TwoRects(dirty: seq<Rect>, screen: Rect, a: Rect, b: Rect)
    ensures QueueAll(dirty, screen, [a, b]) == Queue(Queue(dirty, screen, a), screen, b)
  {
    assert [] + [a] == [a] && [a] + [b] == [a, b];
    QueueOneMore(dirty, screen, [], a);
    QueueOneMore(dirty, screen, [a], b);
  }

  /** A window update queues at most five rectangles, so it never overflows when at most 27 are
      waiting; window_draw_all leaves none waiting. */
  lemma {:induction false} UpdateFits(screen: Rect, d: Desk, a: Arrow, mx: int, my: int, left: bool, dirty: seq<Rect>)
    requires |dirty| <= 27
    ensures !AnyOverflow(dirty, screen, UpdateRects(d, a, mx, my, left))
  {
    RoomEnough(dirty, screen, UpdateRects(d, a, mx, my, left));
  }

  lemma {:induction false} QueueInParts(dirty: seq<Rect>, screen: Rect, a: seq<Rect>, b: seq<Rect>)
    ensures QueueAll(dirty, screen, a + b) == QueueAll(QueueAll(dirty, screen, a), screen, b)
    ensures AnyOverflow(dirty, screen, a + b) <==>
      AnyOverflow(dirty, screen, a) || AnyOverflow(QueueAll(dirty, screen, a), screen, b)
    decreases |a|
  {
    if a == [] {
      assert a + b == b;
    } else {
      assert (a + b)[1..] == a[1..] + b;
      QueueInParts(Queue(dirty, screen, a[0]), screen, a[1..], b);
    }
  }

  /** No overflow as long as there is room for every new rectangle. */
  lemma {:induction false} RoomEnough(dirty: seq<Rect>, screen: Rect, rects: seq<Rect>)
    requires |dirty| + |rects| <= MAX_DIRTY
    ensures !AnyOverflow(dirty, screen, rects) && |QueueAll(dirty, screen, rects)| <= |dirty| + |rects|
    decreases |rects|
  {
    if rects != [] { RoomEnough(Queue(dirty, screen, rects[0]), screen, rects[1..]); }
  }

  lemma QueueWithRoom(dirty: seq<Rect>, screen: Rect, r: Rect)
    requires |dirty| < MAX_DIRTY
    ensures !Overflows(dirty, screen, r) && |Queue(dirty, screen, r)| <= |dirty| + 1
    ensures forall x, y :: Covered(dirty, x, y) ==> Covered(Queue(dirty, screen, r), x, y)
  {
    QueueCovers(dirty, screen, r);
  }

  /** Without overflow, whatever was dirty stays dirty and every new rectangle is covered. */
  lemma {:induction false} QueueAllCovers(dirty: seq<Rect>, screen: Rect, rects: seq<Rect>)
    requires !AnyOverflow(dirty, screen, rects)
    ensures forall x, y :: Covers(screen, x, y) && (Covered(dirty, x, y) || Covered(rects, x, y)) ==>
      Covered(QueueAll(dirty, screen, rects), x, y)
    decreases |rects|
  {
    if rects != [] {
      var next := Queue(dirty, screen, rects[0]);
      QueueCovers(dirty, screen, rects[0]);
      QueueAllCovers(next, screen, rects[1..]);
      forall x, y | Covers(screen, x, y) && Covered(rects, x, y)
        ensures Covered(QueueAll(dirty, screen, rects), x, y)
      {
        if !Covers(rects[0], x, y) {
          var k :| 0 <= k < |rects| && Covers(rects[k], x, y);
          assert Covers(rects[1..][k - 1], x, y);
        }
      }
    }
  }

  /** The screen stays explained: where the new dirty list is silent, so was the old one, and
      the old scene is the new scene. */
  ghost predicate Explains(screen: Rect, wins: seq<Win>, cx: int, cy: int, dirty: seq<Rect>,
                           wins': seq<Win>, cx': int, cy': int, dirty': seq<Rect>)
  {
    forall x, y :: Covers(screen, x, y) && !Covered(dirty', x, y) ==>
      !Covered(dirty, x, y) && Scene(wins, cx, cy, x, y) == Scene(wins', cx', cy', x, y)
  }

  /** A change that is confined to the rectangles queued for it is explained. */
  lemma {:induction false} ConfinedIsExplained(screen: Rect, wins: seq<Win>, cx: int, cy: int, dirty: seq<Rect>,
                            wins': seq<Win>, cx': int, cy': int, rects: seq<Rect>)
    requires !AnyOverflow(dirty, screen, rects)
    requires forall x, y :: !Covered(rects, x, y) ==> Scene(wins, cx, cy, x, y) == Scene(wins', cx', cy', x, y)
    ensures Explains(screen, wins, cx, cy, dirty, wins', cx', cy', QueueAll(dirty, screen, rects))
  {
    QueueAllCovers(dirty, screen, rects);
  }

  lemma CreateExplained(screen: Rect, wins: seq<Win>, win: Win, cx: int, cy: int, dirty: seq<Rect>)
    requires !TooSmall(win) && !Overflows(dirty, screen, Outer(win))
    ensures Explains(screen, wins, cx, cy, dirty, [win] + wins, cx, cy, Queue(dirty, screen, Outer(win)))
  {
    var rects, after := [Outer(win)], [win] + wins;
    assert after[1..] == wins && QueueAll(dirty, screen, rects) == Queue(dirty, screen, rects[0]);
    forall x, y | !Covered(rects, x, y) ensures Top(after, x, y) == Top(wins, x, y) {
      OutsideOuter(win, rects, 0, x, y);
    }
    ConfinedIsExplained(screen, wins, cx, cy, dirty, after, cx, cy, rects);
  }

  lemma ReplaceExplained(screen: Rect, wins: seq<Win>, i: nat, win: Win, region: Rect, cx: int, cy: int, dirty: seq<Rect>)
    requires i < |wins| && !Overflows(dirty, screen, region) && ChangesOnlyIn(wins[i], win, region)
    ensures Explains(screen, wins, cx, cy, dirty, wins[i := win], cx, cy, Queue(dirty, screen, region))
  {
    var rects, after := [region], wins[i := win];
    assert QueueAll(dirty, screen, rects) == Queue(dirty, screen, rects[0]);
    forall x, y | !Covered(rects, x, y) ensures Top(after, x, y) == Top(wins, x, y) {
      assert !Covers(rects[0], x, y);
      TopReplaced(wins, i, win, x, y);
    }
    ConfinedIsExplained(screen, wins, cx, cy, dirty, after, cx, cy, rects);
  }

  /** A part of the body, in the coordinates of window_mark_region_dirty. */
  function RegionOf(win: Win, x: int, y: int, w: int, h: int): Rect {
    Rect(win.x + x, win.y + TITLE_HEIGHT + y, w, h)
  }

  /** The pixel in this row and column of the window's buffer is the same in `pixels`. */
  ghost predicate PixelKept(win: Win, pixels: seq<int>, row: nat, column: nat) {
    win.buffer.Some? && |pixels| == |win.buffer.value| &&
    (column < win.w && row * win.w + column < |pixels| ==>
       pixels[row * win.w + column] == win.buffer.value[row * win.w + column])
  }

  /** The buffer has changed only in columns x .. x + w - 1 of rows y .. y + h - 1. */
  ghost predicate WroteOnly(win: Win, pixels: seq<int>, x: int, y: int, w: int, h: int) {
    && win.buffer.Some? && |pixels| == |win.buffer.value|
    && forall row: nat, column: nat {:trigger PixelKept(win, pixels, row, column)} ::
         !(x <= column < x + w && y <= row < y + h) ==> PixelKept(win, pixels, row, column)
  }

  ghost predicate ChangesOnlyIn(a: Win, b: Win, region: Rect) {
    forall x, y :: !Covers(region, x, y) ==> WinPixel(a, x, y) == WinPixel(b, x, y)
  }

  lemma SetBufferChangesInside(win: Win, buffer: Option<seq<int>>)
    ensures ChangesOnlyIn(win, win.(buffer := buffer), Outer(win))
  {
  }

  /** What such a change alters of the window is inside the region that is marked. */
  lemma WriteRegionChangesInside(win: Win, pixels: seq<int>, x: int, y: int, w: int, h: int)
    requires WroteOnly(win, pixels, x, y, w, h)
    ensures ChangesOnlyIn(win, win.(buffer := Some(pixels)), RegionOf(win, x, y, w, h))
  {
    var drawn := win.(buffer := Some(pixels));
    forall px, py | !Covers(RegionOf(win, x, y, w, h), px, py) ensures WinPixel(win, px, py) == WinPixel(drawn, px, py) {
      if Covers(Body(win), px, py) {
        assert PixelKept(win, pixels, py - (win.y + TITLE_HEIGHT), px - win.x);
        assert BodyColor(win, px, py) == BodyColor(drawn, px, py);
      }
    }
  }

  lemma OwnerIsNotPainted(win: Win, owner: nat)
    requires WinOk(win)
    ensures WinOk(win.(owner := owner))
  {
    var other := win.(owner := owner);
    forall x, y | win.buffer.Some? && Covers(Body(other), x, y) ensures 0 <= BufferIndex(other, x, y) < |win.buffer.value| {
      assert Body(other) == Body(win) && BufferIndex(other, x, y) == BufferIndex(win, x, y);
    }
  }

  /** A change of what a window does not paint needs no rectangle. */
  lemma RelabelExplained(screen: Rect, wins: seq<Win>, i: nat, owner: nat, cx: int, cy: int, dirty: seq<Rect>)
    requires i < |wins|
    ensures Explains(screen, wins, cx, cy, dirty, wins[i := wins[i].(owner := owner)], cx, cy, dirty)
  {
    var win := wins[i].(owner := owner);
    forall x, y ensures Top(wins[i := win], x, y) == Top(wins, x, y) {
      TopReplaced(wins, i, win, x, y);
    }
  }

  predicate Silent(wins: seq<Win>, x: int, y: int) {
    forall k {:trigger wins[k]} :: 0 <= k < |wins| ==> WinPixel(wins[k], x, y).None?
  }

  /** Dropping the rearmost window alters a pixel exactly when only that window colours it. */
  lemma {:induction false} RearmostShows(wins: seq<Win>, last: Win, x: int, y: int)
    ensures Top(wins + [last], x, y) != Top(wins, x, y) <==>
      Silent(wins, x, y) && WinPixel(last, x, y).Some? && WinPixel(last, x, y).value != DESKTOP_COLOR
    decreases |wins|
  {
    if wins == [] {
      assert [last][1..] == [] && [] + [last] == [last];
    } else {
      var all := wins + [last];
      assert all[1..] == wins[1..] + [last] && all[0] == wins[0];
      RearmostShows(wins[1..], last, x, y);
      if WinPixel(wins[0], x, y).None? {
        assert Silent(wins[1..], x, y) ==> Silent(wins, x, y) by {
          assert forall k :: 1 <= k < |wins| ==> wins[k] == wins[1..][k - 1];
        }
        assert Silent(wins, x, y) ==> Silent(wins[1..], x, y) by {
          assert forall k :: 0 <= k < |wins| - 1 ==> wins[1..][k] == wins[k + 1];
        }
      }
    }
  }

  /** Why one window too many is recorded as a loss: the sixteenth drops out of what is drawn,
      and a pixel outside the new window goes stale exactly when only the sixteenth showed there. */
  lemma {:induction false} SeventeenthWindow(wins: seq<Win>, win: Win, x: int, y: int)
    requires |wins| >= MAX_WINDOWS && WinPixel(win, x, y).None?
    ensures Top(Shown([win] + wins), x, y) != Top(Shown(wins), x, y) <==>
      && Silent(wins[..MAX_WINDOWS - 1], x, y)
      && WinPixel(wins[MAX_WINDOWS - 1], x, y).Some? && WinPixel(wins[MAX_WINDOWS - 1], x, y).value != DESKTOP_COLOR
  {
    var front, last := wins[..MAX_WINDOWS - 1], wins[MAX_WINDOWS - 1];
    var shown := Shown([win] + wins);
    assert shown == [win] + front && shown[1..] == front && Shown(wins) == front + [last];
    RearmostShows(front, last, x, y);
  }

  /** It does happen: fifteen windows at the origin before one at (100, 100), and a new one at
      the origin takes the white border of the last away. */
  lemma SeventeenthExample(wins: seq<Win>, win: Win)
    requires wins == seq(16, (k: nat) => if k < 15 then NewWin(k, 0, 0, 50, 50, 0) else NewWin(15, 100, 100, 50, 50, 0))
    requires win == NewWin(16, 0, 0, 50, 50, 0)
    ensures Top(Shown([win] + wins), 100, 100) != Top(Shown(wins), 100, 100)
    ensures !Covers(Outer(win), 100, 100)
  {
    SeventeenthWindow(wins, win, 100, 100);
  }

  // ---------------------------------------------------------------- destroying by owner

  /** The windows that do not belong to a process. */
  function NotOwnedBy(wins: seq<Win>, pid: nat): (rest: seq<Win>)
    ensures forall win :: win in rest <==> win in wins && win.owner != pid
    ensures |rest| <= |wins|
    decreases |wins|
  {
    if wins == [] then []
    else if wins[0].owner == pid then NotOwnedBy(wins[1..], pid)
    else [wins[0]] + NotOwnedBy(wins[1..], pid)
  }

  /** The outer rectangles of the windows that do. */
  function OwnedRects(wins: seq<Win>, pid: nat): seq<Rect>
    decreases |wins|
  {
    if wins == [] then []
    else if wins[0].owner == pid then [Outer(wins[0])] + OwnedRects(wins[1..], pid)
    else OwnedRects(wins[1..], pid)
  }

  /** Outside those rectangles nothing changes. */
  lemma {:induction false} DestroyConfined(wins: seq<Win>, pid: nat, x: int, y: int)
    requires NoneTooSmall(wins)
    requires !Covered(OwnedRects(wins, pid), x, y)
    ensures Top(NotOwnedBy(wins, pid), x, y) == Top(wins, x, y)
    decreases |wins|
  {
    if wins != [] {
      var rects, tail := OwnedRects(wins, pid), OwnedRects(wins[1..], pid);
      forall k | 0 <= k < |tail| ensures !Covers(tail[k], x, y) {
        assert rects[|rects| - |tail| + k] == tail[k];
      }
      DestroyConfined(wins[1..], pid, x, y);
      if wins[0].owner == pid { OutsideOuter(wins[0], rects, 0, x, y); }
    }
  }

  lemma {:induction false} OwnedUpTo(wins: seq<Win>, pid: nat, k: nat)
    requires k < |wins|
    ensures NotOwnedBy(wins[..k + 1], pid) ==
      NotOwnedBy(wins[..k], pid) + if wins[k].owner == pid then [] else [wins[k]]
    ensures OwnedRects(wins[..k + 1], pid) ==
      OwnedRects(wins[..k], pid) + if wins[k].owner == pid then [Outer(wins[k])] else []
  {
    assert wins[..k + 1] == wins[..k] + [wins[k]];
    NotOwnedAppend(wins[..k], wins[k], pid);
    OwnedAppend(wins[..k], wins[k], pid);
  }

  lemma {:induction false} NotOwnedAppend(wins: seq<Win>, win: Win, pid: nat)
    ensures NotOwnedBy(wins + [win], pid) == NotOwnedBy(wins, pid) + if win.owner == pid then [] else [win]
    decreases |wins|
  {
    if wins == [] {
      assert [win][1..] == [];
    } else {
      assert (wins + [win])[1..] == wins[1..] + [win] && (wins + [win])[0] == wins[0];
      NotOwnedAppend(wins[1..], win, pid);
    }
  }

  lemma {:induction false} OwnedAppend(wins: seq<Win>, win: Win, pid: nat)
    ensures OwnedRects(wins + [win], pid) == OwnedRects(wins, pid) + if win.owner == pid then [Outer(win)] else []
    decreases |wins|
  {
    if wins == [] {
      assert [win][1..] == [];
    } else {
      assert (wins + [win])[1..] == wins[1..] + [win] && (wins + [win])[0] == wins[0];
      OwnedAppend(wins[1..], win, pid);
    }
  }

  /** The scan for a process's windows has passed k of the original windows and kept i. */
  ghost predicate Scanned(was: seq<Win>, pid: nat, k: nat, wins: seq<Win>, i: nat) {
    && k <= |was| && i <= |wins| && |was| - k == |wins| - i
    && wins[..i] == NotOwnedBy(was[..k], pid) && wins[i..] == was[k..]
  }

  lemma ScanStep(was: seq<Win>, pid: nat, k: nat, wins: seq<Win>, i: nat)
    requires Scanned(was, pid, k, wins, i) && i < |wins|
    ensures k < |was| && was[k] == wins[i]
    ensures wins[i].owner != pid ==> Scanned(was, pid, k + 1, wins, i + 1)
    ensures wins[i].owner == pid ==> Scanned(was, pid, k + 1, wins[..i] + wins[i + 1..], i)
  {
    OwnedUpTo(was, pid, k);
    assert was[k] == was[k..][0] == wins[i..][0] == wins[i];
    assert wins[i + 1..] == wins[i..][1..] == was[k..][1..] == was[k + 1..];
    if wins[i].owner == pid {
      var rest := wins[..i] + wins[i + 1..];
      assert rest[..i] == wins[..i] && rest[i..] == wins[i + 1..];
    }
  }

  lemma {:induction false} ScanDone(was: seq<Win>, pid: nat, k: nat, wins: seq<Win>, i: nat)
    requires Scanned(was, pid, k, wins, i) && i == |wins|
    ensures wins == NotOwnedBy(was, pid) && k == |was| && was[..k] == was
  {
    assert was[..k] == was && wins[..i] == wins;
  }

  /** The rectangles queued so far, and whether any of them overflowed. */
  lemma {:induction false} ScanRects(was: seq<Win>, pid: nat, k: nat, screen: Rect, dirty: seq<Rect>)
    requires k < |was|
    ensures var so, next := OwnedRects(was[..k], pid), OwnedRects(was[..k + 1], pid);
      if was[k].owner == pid then
        && QueueAll(dirty, screen, next) == Queue(QueueAll(dirty, screen, so), screen, Outer(was[k]))
        && (AnyOverflow(dirty, screen, next) <==>
             AnyOverflow(dirty, screen, so) || Overflows(QueueAll(dirty, screen, so), screen, Outer(was[k])))
      else next == so
  {
    OwnedUpTo(was, pid, k);
    QueueOneMore(dirty, screen, OwnedRects(was[..k], pid), Outer(was[k]));
  }

  lemma {:induction false} DestroyExplained(screen: Rect, wins: seq<Win>, pid: nat, cx: int, cy: int, dirty: seq<Rect>)
    requires NoneTooSmall(wins) && !AnyOverflow(dirty, screen, OwnedRects(wins, pid))
    ensures Explains(screen, wins, cx, cy, dirty, NotOwnedBy(wins, pid), cx, cy, QueueAll(dirty, screen, OwnedRects(wins, pid)))
  {
    var rects, after := OwnedRects(wins, pid), NotOwnedBy(wins, pid);
    forall x, y | !Covered(rects, x, y) ensures Top(after, x, y) == Top(wins, x, y) {
      DestroyConfined(wins, pid, x, y);
    }
    ConfinedIsExplained(screen, wins, cx, cy, dirty, after, cx, cy, rects);
  }

  // ---------------------------------------------------------------- the mouse

  function IndexOf(wins: seq<Win>, id: nat): (i: nat)
    ensures i <= |wins|
    ensures i < |wins| ==> wins[i].id == id
    ensures forall k :: 0 <= k < i ==> wins[k].id != id
    decreases |wins|
  {
    if wins == [] then 0 else if wins[0].id == id then 0 else 1 + IndexOf(wins[1..], id)
  }

  lemma {:induction false} SameIdsSameIndex(a: seq<Win>, b: seq<Win>, id: nat)
    requires |a| == |b| && forall k :: 0 <= k < |a| ==> a[k].id == b[k].id
    ensures IndexOf(a, id) == IndexOf(b, id)
  {
  }

  predicate HitBy(win: Win, mx: int, my: int) {
    Covers(Rect(win.x, win.y, win.w, win.h), mx, my)
  }

  predicate InTitle(win: Win, my: int) {
    my < win.y + TITLE_HEIGHT
  }

  function HitIndex(wins: seq<Win>, mx: int, my: int): (i: nat)
    ensures i <= |wins|
    ensures i < |wins| ==> HitBy(wins[i], mx, my)
    ensures forall k :: 0 <= k < i ==> !HitBy(wins[k], mx, my)
    decreases |wins|
  {
    if wins == [] then 0 else if HitBy(wins[0], mx, my) then 0 else 1 + HitIndex(wins[1..], mx, my)
  }

  datatype Desk = Desk(wins: seq<Win>, dragging: Option<nat>, offX: int, offY: int)

  /** window_update: what the mouse does to the windows. */
  function AfterMouse(d: Desk, mx: int, my: int, left: bool): Desk {
    if !left then d.(dragging := None)
    else if d.dragging.Some? then
      var i := IndexOf(d.wins, d.dragging.value);
      if i == |d.wins| then d.(dragging := None)
      else d.(wins := d.wins[i := d.wins[i].(x := mx - d.offX, y := my - d.offY)])
    else
      var i := HitIndex(Shown(d.wins), mx, my);
      if i < |Shown(d.wins)| && InTitle(d.wins[i], my) then
        Desk(Raised(d.wins, i), Some(d.wins[i].id), mx - d.wins[i].x, my - d.wins[i].y)
      else d
  }

  /** The rectangles it queues for that. */
  function MouseRects(d: Desk, mx: int, my: int, left: bool): seq<Rect> {
    if !left then []
    else if d.dragging.Some? then
      var i := IndexOf(d.wins, d.dragging.value);
      if i == |d.wins| then []
      else [Outer(d.wins[i]), Outer(d.wins[i].(x := mx - d.offX, y := my - d.offY))]
    else
      var i := HitIndex(Shown(d.wins), mx, my);
      if 0 < i < |Shown(d.wins)| && InTitle(d.wins[i], my) then [Outer(d.wins[i]), Outer(d.wins[i])] else []
  }

  predicate DistinctIds(wins: seq<Win>) {
    forall i, j :: 0 <= i < j < |wins| ==> wins[i].id != wins[j].id
  }

  /** What is being dragged is always in the list. */
  predicate DeskOk(d: Desk) {
    DistinctIds(d.wins) && (d.dragging.Some? ==> IndexOf(d.wins, d.dragging.value) < |d.wins|)
  }

  lemma {:induction false} IdIndex(wins: seq<Win>, i: nat)
    requires DistinctIds(wins) && i < |wins|
    ensures IndexOf(wins, wins[i].id) == i
  {
  }

  lemma RaisedIds(wins: seq<Win>, i: nat)
    requires DistinctIds(wins) && i < |wins|
    ensures DistinctIds(Raised(wins, i))
  {
    var raised := Raised(wins, i);
    forall a, b | 0 <= a < b < |raised| ensures raised[a].id != raised[b].id {
      var a', b' := if a == 0 then i else if a <= i then a - 1 else a, if b <= i then b - 1 else b;
      assert raised[a] == wins[a'] && raised[b] == wins[b'];
    }
  }

  lemma MouseKeepsDesk(d: Desk, mx: int, my: int, left: bool)
    requires DeskOk(d)
    ensures DeskOk(AfterMouse(d, mx, my, left))
    ensures |AfterMouse(d, mx, my, left).wins| == |d.wins|
    ensures NoneTooSmall(d.wins) ==> NoneTooSmall(AfterMouse(d, mx, my, left).wins)
  {
    var d' := AfterMouse(d, mx, my, left);
    if NoneTooSmall(d.wins) { MouseKeepsSizes(d, mx, my, left); }
    if left && d.dragging.Some? {
      var i := IndexOf(d.wins, d.dragging.value);
      assert forall k :: 0 <= k < |d.wins| ==> d'.wins[k].id == d.wins[k].id;
      IdIndex(d'.wins, i);
    } else if left {
      var i := HitIndex(Shown(d.wins), mx, my);
      if i < |Shown(d.wins)| && InTitle(d.wins[i], my) { RaisedIds(d.wins, i); }
    }
  }

  lemma MouseKeepsSizes(d: Desk, mx: int, my: int, left: bool)
    requires NoneTooSmall(d.wins)
    ensures NoneTooSmall(AfterMouse(d, mx, my, left).wins)
  {
    var wins := AfterMouse(d, mx, my, left).wins;
    forall k | 0 <= k < |wins| ensures !TooSmall(wins[k]) {
      var was := MouseOnlyMoves(d, mx, my, left, k);
    }
  }

  lemma CreateKeepsDesk(d: Desk, win: Win)
    requires DeskOk(d) && WinsOk(d.wins, win.id) && WinOk(win)
    ensures DeskOk(d.(wins := [win] + d.wins)) && WinsOk([win] + d.wins, win.id + 1)
    ensures NoneTooSmall(d.wins) && !TooSmall(win) ==> NoneTooSmall([win] + d.wins)
    ensures forall x, y :: WinPixel(win, x, y).None? ==> Top([win] + d.wins, x, y) == Top(d.wins, x, y)
  {
    assert ([win] + d.wins)[1..] == d.wins;
  }

  lemma ReplaceKeepsDesk(d: Desk, i: nat, win: Win, nextId: nat)
    requires DeskOk(d) && WinsOk(d.wins, nextId) && i < |d.wins| && WinOk(win)
    requires win.id == d.wins[i].id && win.w == d.wins[i].w && win.h == d.wins[i].h
    ensures DeskOk(d.(wins := d.wins[i := win])) && WinsOk(d.wins[i := win], nextId)
    ensures NoneTooSmall(d.wins) ==> NoneTooSmall(d.wins[i := win])
  {
    var after := d.wins[i := win];
    assert forall k :: 0 <= k < |after| ==> after[k].id == d.wins[k].id;
    if d.dragging.Some? { SameIdsSameIndex(d.wins, after, d.dragging.value); }
  }

  lemma RemoveKeepsDesk(d: Desk, i: nat, nextId: nat)
    requires DeskOk(d) && WinsOk(d.wins, nextId) && i < |d.wins|
    ensures var d' := d.(wins := d.wins[..i] + d.wins[i + 1..],
                         dragging := if d.dragging == Some(d.wins[i].id) then None else d.dragging);
      && DeskOk(d') && WinsOk(d'.wins, nextId)
      && (NoneTooSmall(d.wins) ==> NoneTooSmall(d'.wins))
  {
    var rest := d.wins[..i] + d.wins[i + 1..];
    assert forall k :: 0 <= k < |rest| ==> rest[k] == d.wins[if k < i then k else k + 1];
    if d.dragging.Some? && d.dragging.value != d.wins[i].id {
      var was := IndexOf(d.wins, d.dragging.value);
      var now := if was < i then was else was - 1;
      assert rest[now] == d.wins[was];
      IdIndex(rest, now);
    }
  }

  /** A drag goes on only while its window is in the list. */
  function DraggedStill(held: Option<nat>, wins: seq<Win>): Option<nat> {
    if held.Some? && IndexOf(wins, held.value) == |wins| then None else held
  }

  lemma HeldWhileListed(held: Option<nat>, wins: seq<Win>)
    ensures DraggedStill(held, wins) ==
      if held.Some? && (exists k :: 0 <= k < |wins| && wins[k].id == held.value) then held else None
  {
    if held.Some? && IndexOf(wins, held.value) < |wins| { assert wins[IndexOf(wins, held.value)].id == held.value; }
  }

  lemma RemovedIsGone(wins: seq<Win>, i: nat, id: nat)
    requires DistinctIds(wins) && i < |wins|
    ensures var rest := wins[..i] + wins[i + 1..];
      IndexOf(rest, id) == |rest| <==> (id == wins[i].id || IndexOf(wins, id) == |wins|)
  {
    var rest := wins[..i] + wins[i + 1..];
    assert forall k :: 0 <= k < |rest| ==> rest[k] == wins[if k < i then k else k + 1];
    var was := IndexOf(wins, id);
    if was < |wins| && was != i {
      assert rest[if was < i then was else was - 1].id == id;
    }
  }

  /** The mouse moves windows about; it changes nothing else about them. */
  lemma MouseOnlyMoves(d: Desk, mx: int, my: int, left: bool, k: nat) returns (was: nat)
    requires k < |AfterMouse(d, mx, my, left).wins|
    ensures was < |d.wins|
    ensures var win := AfterMouse(d, mx, my, left).wins[k]; win == d.wins[was].(x := win.x, y := win.y)
  {
    was := k;
    if left && d.dragging.None? {
      var i := HitIndex(Shown(d.wins), mx, my);
      if i < |Shown(d.wins)| && InTitle(d.wins[i], my) {
        was := if k == 0 then i else if k <= i then k - 1 else k;
      }
    }
  }

  lemma MovedWinOk(win: Win, x: int, y: int)
    requires WinOk(win)
    ensures WinOk(win.(x := x, y := y))
  {
    var moved := win.(x := x, y := y);
    forall px, py | win.buffer.Some? && Covers(Body(moved), px, py)
      ensures 0 <= BufferIndex(moved, px, py) < |win.buffer.value|
    {
      assert Covers(Body(win), px - x + win.x, py - y + win.y);
      assert BufferIndex(moved, px, py) == BufferIndex(win, px - x + win.x, py - y + win.y);
    }
  }

  lemma MouseKeepsWins(d: Desk, mx: int, my: int, left: bool, nextId: nat)
    requires WinsOk(d.wins, nextId)
    ensures WinsOk(AfterMouse(d, mx, my, left).wins, nextId)
  {
    var wins := AfterMouse(d, mx, my, left).wins;
    forall k | 0 <= k < |wins| ensures WinOk(wins[k]) && wins[k].id < nextId {
      var was := MouseOnlyMoves(d, mx, my, left, k);
      MovedWinOk(d.wins[was], wins[k].x, wins[k].y);
    }
  }

  /** Outside the rectangles queued for it, the mouse changes nothing. */
  lemma {:induction false} MouseConfined(d: Desk, mx: int, my: int, left: bool, x: int, y: int)
    requires DeskOk(d) && NoneTooSmall(d.wins)
    requires !Covered(MouseRects(d, mx, my, left), x, y)
    ensures Top(AfterMouse(d, mx, my, left).wins, x, y) == Top(d.wins, x, y)
  {
    var rects := MouseRects(d, mx, my, left);
    if left && d.dragging.Some? {
      var i := IndexOf(d.wins, d.dragging.value);
      var moved := d.wins[i].(x := mx - d.offX, y := my - d.offY);
      OutsideOuter(d.wins[i], rects, 0, x, y);
      OutsideOuter(moved, rects, 1, x, y);
      TopReplaced(d.wins, i, moved, x, y);
    } else if left {
      var i := HitIndex(Shown(d.wins), mx, my);
      if 0 < i < |Shown(d.wins)| && InTitle(d.wins[i], my) {
        OutsideOuter(d.wins[i], rects, 0, x, y);
        TopRaised(d.wins, i, x, y);
      } else if i == 0 && d.wins != [] {
        assert Raised(d.wins, 0) == d.wins;
      }
    }
  }

  // ---------------------------------------------------------------- gestures

  /** Window i is the front-most of those shown under the mouse. */
  ghost predicate FrontMost(wins: seq<Win>, i: nat, mx: int, my: int) {
    && i < |wins| && i < 16 && HitBy(wins[i], mx, my)
    && forall k :: 0 <= k < i ==> !HitBy(wins[k], mx, my)
  }

  /** The title strip of a window: what is under the mouse of it but is not its body. */
  ghost predicate OnTitle(wins: seq<Win>, i: nat, mx: int, my: int) {
    FrontMost(wins, i, mx, my) && !Covers(Body(wins[i]), mx, my)
  }

  lemma {:induction false} FrontMostIsHit(wins: seq<Win>, i: nat, mx: int, my: int)
    requires FrontMost(wins, i, mx, my)
    ensures HitIndex(Shown(wins), mx, my) == i && i < |Shown(wins)| && Shown(wins)[i] == wins[i]
  {
    assert forall k :: 0 <= k <= i ==> Shown(wins)[k] == wins[k];
  }

  /** A press that is not on the title strip of the front-most window under the mouse, or is on no
      window, changes nothing. */
  lemma PressElsewhere(d: Desk, mx: int, my: int)
    requires d.dragging.None? && forall i :: !OnTitle(d.wins, i, mx, my)
    ensures AfterMouse(d, mx, my, true) == d
  {
    var i := HitIndex(Shown(d.wins), mx, my);
    if i < |Shown(d.wins)| {
      assert forall k :: 0 <= k <= i ==> Shown(d.wins)[k] == d.wins[k];
      assert FrontMost(d.wins, i, mx, my) && !OnTitle(d.wins, i, mx, my);
    }
  }

  /** A mouse report: where, and whether the left button is down. */
  datatype Point = Point(x: int, y: int, left: bool)

  function Reports(d: Desk, reports: seq<Point>): Desk
    decreases |reports|
  {
    if reports == [] then d
    else
      var last := reports[|reports| - 1];
      AfterMouse(Reports(d, reports[..|reports| - 1]), last.x, last.y, last.left)
  }

  lemma {:induction false} ReportsInTwo(d: Desk, a: seq<Point>, b: seq<Point>)
    ensures Reports(d, a + b) == Reports(Reports(d, a), b)
    decreases |b|
  {
    if b == [] {
      assert a + b == a;
    } else {
      assert (a + b)[..|a + b| - 1] == a + b[..|b| - 1];
      ReportsInTwo(d, a, b[..|b| - 1]);
    }
  }

  /** With the button up no window moves, and nothing is held any more. */
  lemma {:induction false} UpMovesNothing(d: Desk, reports: seq<Point>)
    requires reports != [] && forall k :: 0 <= k < |reports| ==> !reports[k].left
    ensures Reports(d, reports).wins == d.wins && Reports(d, reports).dragging.None?
    decreases |reports|
  {
    if |reports| > 1 {
      UpMovesNothing(d, reports[..|reports| - 1]);
    } else {
      assert reports[..0] == [];
    }
  }

  /** A move with a window held takes that window to the mouse and touches no other. */
  lemma HeldMove(d: Desk, win: Win, rest: seq<Win>, mx: int, my: int)
    requires d.wins == [win] + rest && d.dragging == Some(win.id)
    ensures AfterMouse(d, mx, my, true) == d.(wins := [win.(x := mx - d.offX, y := my - d.offY)] + rest)
  {
    assert IndexOf(d.wins, win.id) == 0;
    assert d.wins[0 := win.(x := mx - d.offX, y := my - d.offY)] == [win.(x := mx - d.offX, y := my - d.offY)] + rest;
  }

  lemma {:induction false} HeldMoves(d: Desk, win: Win, rest: seq<Win>, held: seq<Point>)
    requires d.wins == [win] + rest && d.dragging == Some(win.id)
    requires forall k :: 0 <= k < |held| ==> held[k].left
    ensures Reports(d, held) ==
      if held == [] then d
      else d.(wins := [win.(x := held[|held| - 1].x - d.offX, y := held[|held| - 1].y - d.offY)] + rest)
    decreases |held|
  {
    hide AfterMouse;
    if held != [] {
      var fewer, last := held[..|held| - 1], held[|held| - 1];
      HeldMoves(d, win, rest, fewer);
      var before := Reports(d, fewer);
      HeldMove(before, before.wins[0], rest, last.x, last.y);
    }
  }

  lemma {:induction false} PressTakes(d: Desk, i: nat, press: Point)
    requires d.dragging.None? && press.left && OnTitle(d.wins, i, press.x, press.y)
    ensures Reports(d, [press]) ==
      Desk([d.wins[i]] + (d.wins[..i] + d.wins[i + 1..]), Some(d.wins[i].id), press.x - d.wins[i].x, press.y - d.wins[i].y)
  {
    FrontMostIsHit(d.wins, i, press.x, press.y);
    assert [press][..0] == [] && Raised(d.wins, i) == [d.wins[i]] + (d.wins[..i] + d.wins[i + 1..]);
  }

  /** A press on the title strip of the front-most window under the mouse and any number of moves
      with the button held: the window comes to the front and follows the mouse exactly, and the
      others keep their places and their order. */
  lemma {:induction false} DragFollows(d: Desk, i: nat, press: Point, held: seq<Point>)
    requires d.dragging.None? && press.left && OnTitle(d.wins, i, press.x, press.y)
    requires forall k :: 0 <= k < |held| ==> held[k].left
    ensures var end := if held == [] then press else held[|held| - 1];
      var win := d.wins[i];
      Reports(d, [press] + held) ==
        Desk([win.(x := win.x + end.x - press.x, y := win.y + end.y - press.y)] + (d.wins[..i] + d.wins[i + 1..]),
             Some(win.id), press.x - win.x, press.y - win.y)
  {
    var win := d.wins[i];
    ReportsInTwo(d, [press], held);
    PressTakes(d, i, press);
    HeldMoves(Reports(d, [press]), win, d.wins[..i] + d.wins[i + 1..], held);
    assert win.(x := win.x, y := win.y) == win;
  }

  /** A whole gesture: a press on the title strip of the front-most window under the mouse, any held
      moves, a release, and any reports with the button up. The window ends at the front, where the
      last held report put it; all others keep their places and their order; nothing is held; and a
      later press that is on no title strip changes nothing either. */
  lemma {:induction false} GestureEnds(d: Desk, i: nat, press: Point, held: seq<Point>, up: seq<Point>, again: Point)
    requires d.dragging.None? && press.left && OnTitle(d.wins, i, press.x, press.y)
    requires forall k :: 0 <= k < |held| ==> held[k].left
    requires up != [] && forall k :: 0 <= k < |up| ==> !up[k].left
    ensures var end := if held == [] then press else held[|held| - 1];
      var win := d.wins[i];
      var d' := Reports(d, [press] + held + up);
      && d'.wins == [win.(x := win.x + end.x - press.x, y := win.y + end.y - press.y)] + (d.wins[..i] + d.wins[i + 1..])
      && d'.dragging.None?
      && ((forall j :: !OnTitle(d'.wins, j, again.x, again.y)) ==> AfterMouse(d', again.x, again.y, again.left) == d')
  {
    DragFollows(d, i, press, held);
    ReportsInTwo(d, [press] + held, up);
    UpMovesNothing(Reports(d, [press] + held), up);
    var d' := Reports(d, [press] + held + up);
    if forall j :: !OnTitle(d'.wins, j, again.x, again.y) { PressElsewhere(d', again.x, again.y); }
  }

  // ---------------------------------------------------------------- the first mouse report

  /** Somewhere on the screen, outside the dirty list, the scene with the arrow moved differs
      from the scene as it was drawn. */
  ghost predicate StaleArrow(screen: Rect, wins: seq<Win>, cx: int, cy: int, mx: int, my: int, dirty: seq<Rect>) {
    exists x, y :: Covers(screen, x, y) && !Covered(dirty, x, y) && Scene(wins, cx, cy, x, y) != Scene(wins, mx, my, x, y)
  }

  /** A pixel of an arrow drawn at (cx, cy) is on the screen, not dirty, and over something that
      is not white. */
  predicate ArrowExposed(screen: Rect, wins: seq<Win>, cx: int, cy: int, dirty: seq<Rect>) {
    exists y, x | cy <= y < cy + CURSOR_H && cx <= x < cx + CURSOR_W ::
      InCursor(cx, cy, x, y) && Covers(screen, x, y) && !Covered(dirty, x, y) && Top(wins, x, y) != WHITE
  }

  /** Once the new arrow's place is dirty, the old arrow is left behind exactly where one of its
      pixels is exposed. */
  lemma ArrowLeftBehind(screen: Rect, wins: seq<Win>, cx: int, cy: int, mx: int, my: int, dirty: seq<Rect>)
    requires forall x, y :: Covers(screen, x, y) && Covers(CursorRect(mx, my), x, y) ==> Covered(dirty, x, y)
    ensures StaleArrow(screen, wins, cx, cy, mx, my, dirty) <==> ArrowExposed(screen, wins, cx, cy, dirty)
  {
    if StaleArrow(screen, wins, cx, cy, mx, my, dirty) {
      var x, y :| Covers(screen, x, y) && !Covered(dirty, x, y) && Scene(wins, cx, cy, x, y) != Scene(wins, mx, my, x, y);
      assert !Covers(CursorRect(mx, my), x, y);
      assert InCursor(cx, cy, x, y) && Top(wins, x, y) != WHITE;
    }
    if ArrowExposed(screen, wins, cx, cy, dirty) {
      var y, x :| InCursor(cx, cy, x, y) && Covers(screen, x, y) && !Covered(dirty, x, y) && Top(wins, x, y) != WHITE;
      assert !Covers(CursorRect(mx, my), x, y);
      assert Scene(wins, cx, cy, x, y) != Scene(wins, mx, my, x, y);
    }
  }

  /** For instance: on an empty desktop already painted, the first report leaves the arrow in
      the corner behind exactly when the mouse is elsewhere. */
  lemma FirstReportLeavesArrow(screen: Rect, mx: int, my: int)
    requires screen.x == 0 && screen.y == 0 && screen.w > 0 && screen.h > 0 && mx >= 0 && my >= 0
    ensures ArrowExposed(screen, [], 0, 0, Queue([], screen, CursorRect(mx, my))) <==> (mx, my) != (0, 0)
  {
    var dirty := Queue([], screen, CursorRect(mx, my));
    QueueCovers([], screen, CursorRect(mx, my));
    var c := Intersect(CursorRect(mx, my), screen);
    if c.Some? { assert dirty == [c.value]; }
    assert forall x, y :: Covers(screen, x, y) && Covered(dirty, x, y) ==> Covers(CursorRect(mx, my), x, y);
    if (mx, my) != (0, 0) {
      assert InCursor(0, 0, 0, 0) && Covers(screen, 0, 0) && !Covered(dirty, 0, 0) && Top([], 0, 0) != WHITE;
    }
  }

  // ---------------------------------------------------------------- one whole mouse update

  /** Where the arrow is drawn and where the mouse last was. */
  datatype Arrow = Arrow(ready: bool, x: int, y: int, lastX: int, lastY: int)

  function FirstRects(a: Arrow, mx: int, my: int): seq<Rect> {
    if a.ready then [] else [CursorRect(mx, my)]
  }

  function CursorRects(a: Arrow, mx: int, my: int): seq<Rect> {
    if mx == a.lastX && my == a.lastY then []
    else [if a.ready then CursorRect(a.x, a.y) else CursorRect(mx, my), CursorRect(mx, my)]
  }

  /** All that one window_update queues, in order. */
  function UpdateRects(d: Desk, a: Arrow, mx: int, my: int, left: bool): seq<Rect> {
    FirstRects(a, mx, my) + MouseRects(d, mx, my, left) + CursorRects(a, mx, my)
  }

  /** What one update can lose: an overflow, or, at the first mouse report, an exposed arrow
      drawn before it. */
  predicate Escapes(screen: Rect, d: Desk, a: Arrow, mx: int, my: int, left: bool, dirty: seq<Rect>) {
    var queued := UpdateRects(d, a, mx, my, left);
    || AnyOverflow(dirty, screen, queued)
    || (!a.ready && ArrowExposed(screen, AfterMouse(d, mx, my, left).wins, a.x, a.y, QueueAll(dirty, screen, queued)))
  }

  /** The on-screen part of the arrow is waiting to be drawn. */
  ghost predicate ArrowDirty(screen: Rect, cx: int, cy: int, dirty: seq<Rect>) {
    forall x, y :: InCursor(cx, cy, x, y) && Covers(screen, x, y) ==> Covered(dirty, x, y)
  }

  ghost predicate AllDirty(screen: Rect, dirty: seq<Rect>) {
    forall x, y :: Covers(screen, x, y) ==> Covered(dirty, x, y)
  }

  lemma AllDirtyArrow(screen: Rect, cx: int, cy: int, dirty: seq<Rect>)
    requires AllDirty(screen, dirty)
    ensures ArrowDirty(screen, cx, cy, dirty)
  {
  }

  /** For the first report of a list that does not overflow, to escape is exactly to leave a
      pixel of the screen wrong that no rectangle covers. */
  lemma {:induction false} FirstUpdateEscapes(screen: Rect, d: Desk, a: Arrow, mx: int, my: int, left: bool,
                                              dirty: seq<Rect>)
    requires !a.ready && !AnyOverflow(dirty, screen, UpdateRects(d, a, mx, my, left))
    ensures Escapes(screen, d, a, mx, my, left, dirty) <==>
      StaleArrow(screen, AfterMouse(d, mx, my, left).wins, a.x, a.y, mx, my,
        QueueAll(dirty, screen, UpdateRects(d, a, mx, my, left)))
  {
    var queued := UpdateRects(d, a, mx, my, left);
    var dirty' := QueueAll(dirty, screen, queued);
    assert queued[0] == CursorRect(mx, my);
    QueueAllCovers(dirty, screen, queued);
    forall x, y | Covers(screen, x, y) && Covers(CursorRect(mx, my), x, y) ensures Covered(dirty', x, y) {
      assert Covers(queued[0], x, y);
    }
    ArrowLeftBehind(screen, AfterMouse(d, mx, my, left).wins, a.x, a.y, mx, my, dirty');
  }

  /** Three parts queued one after the other are the whole queued. */
  lemma {:induction false} PartsAddUp(screen: Rect, dirty: seq<Rect>, a: seq<Rect>, b: seq<Rect>, c: seq<Rect>,
                   first: seq<Rect>, second: seq<Rect>, third: seq<Rect>)
    requires first == QueueAll(dirty, screen, a) && second == QueueAll(first, screen, b)
    requires third == QueueAll(second, screen, c)
    ensures third == QueueAll(dirty, screen, a + b + c)
  {
    QueueInParts(dirty, screen, a + b, c);
    QueueInParts(dirty, screen, a, b);
  }

  /** With room for five rectangles, and the first arrow not yet drawn, an update loses nothing. */
  lemma UpdateNeverEscapes(screen: Rect, d: Desk, a: Arrow, mx: int, my: int, left: bool, dirty: seq<Rect>)
    requires |dirty| <= 27 && (a.ready || ArrowDirty(screen, a.x, a.y, dirty))
    ensures !Escapes(screen, d, a, mx, my, left, dirty)
  {
    UpdateFits(screen, d, a, mx, my, left, dirty);
    QueueAllCovers(dirty, screen, UpdateRects(d, a, mx, my, left));
  }

  lemma CoveredInParts(a: seq<Rect>, b: seq<Rect>, x: int, y: int)
    ensures Covered(a + b, x, y) <==> Covered(a, x, y) || Covered(b, x, y)
  {
    var all := a + b;
    if Covered(a, x, y) {
      var k :| 0 <= k < |a| && Covers(a[k], x, y);
      assert Covers(all[k], x, y);
    }
    if Covered(b, x, y) {
      var k :| 0 <= k < |b| && Covers(b[k], x, y);
      assert Covers(all[|a| + k], x, y);
    }
  }

  /** Every pixel an update changes is dirty afterwards, unless it escapes. */
  lemma {:induction false} UpdateExplained(screen: Rect, d: Desk, a: Arrow, mx: int, my: int, left: bool, dirty: seq<Rect>)
    requires DeskOk(d) && NoneTooSmall(d.wins)
    requires a.ready ==> a.x == a.lastX && a.y == a.lastY
    requires !Escapes(screen, d, a, mx, my, left, dirty)
    ensures Explains(screen, d.wins, a.x, a.y, dirty, AfterMouse(d, mx, my, left).wins, mx, my,
              QueueAll(dirty, screen, UpdateRects(d, a, mx, my, left)))
  {
    var first, mouse, cursor := FirstRects(a, mx, my), MouseRects(d, mx, my, left), CursorRects(a, mx, my);
    var after, dirty' := AfterMouse(d, mx, my, left).wins, QueueAll(dirty, screen, UpdateRects(d, a, mx, my, left));
    QueueAllCovers(dirty, screen, UpdateRects(d, a, mx, my, left));
    forall x, y | Covers(screen, x, y) && !Covered(dirty', x, y)
      ensures !Covered(dirty, x, y) && Scene(d.wins, a.x, a.y, x, y) == Scene(after, mx, my, x, y)
    {
      CoveredInParts(first + mouse, cursor, x, y);
      CoveredInParts(first, mouse, x, y);
      MouseConfined(d, mx, my, left, x, y);
      if a.ready && (mx, my) != (a.lastX, a.lastY) {
        assert !Covers(cursor[0], x, y) && !Covers(cursor[1], x, y);
      }
      if !a.ready { assert !Covers(first[0], x, y); }
    }
  }
}

/** The window manager as it runs: windows, dirty list, mouse, and the repaint of only what is
    dirty, proved equal to a repaint of everything (src/kernel/window.c). */
module WindowManager {
  import opened Common
  import opened Painting
  import opened DeskRules
  import opened GraphicsScreen
  import opened WindowDrawing

  datatype Snapshot = Snapshot(wins: seq<Win>, x: int, y: int)

  class Desktop {
    const screen: Screen
    const rects: array<Rect>   // dirty_rects
    var dirtyCount: nat
    var wins: seq<Win>         // the window list, front first
    var nextId: nat
    var cursorX: int
    var cursorY: int
    var cursorReady: bool
    var dragging: Option<nat>
    var offX: int
    var offY: int
    var lastX: int
    var lastY: int
    var lastButtons: nat
    /** A change has escaped the dirty list: it overflowed, a seventeenth window or one smaller
        than its own frame was made, or an exposed first arrow was left behind. */
    ghost var lost: bool
    /** While window_draw_all is between its two locked sections: what it took from the dirty
        list, and the scene it took to draw there. */
    ghost var pending: seq<Rect>
    ghost var snapshot: Snapshot

    ghost function Dirty(): seq<Rect>
      requires dirtyCount <= rects.Length
      reads this`dirtyCount, rects
    {
      rects[..dirtyCount]
    }

    ghost predicate Structure()
      reads this, rects, screen.back, screen.fb
    {
      && screen.Valid()
      && rects.Length == MAX_DIRTY && dirtyCount <= MAX_DIRTY
    }

    ghost function State(): Desk
      reads this`wins, this`dragging, this`offX, this`offY
    {
      Desk(wins, dragging, offX, offY)
    }

    ghost predicate WindowsOk()
      reads this`wins, this`dragging, this`offX, this`offY, this`nextId
    {
      DeskOk(State()) && WinsOk(wins, nextId)
    }

    /** Every pixel that is not dirty shows, on both buffers, what a full repaint would, or is
        about to be drawn so. */
    ghost predicate UpToDate(wins: seq<Win>, cx: int, cy: int, dirty: seq<Rect>)
      requires screen.Valid()
      reads this`pending, this`snapshot, screen.back, screen.fb
    {
      forall y, x :: 0 <= y < screen.height && 0 <= x < screen.width && !Covered(dirty, x, y) ==>
        && (Covered(pending, x, y) || screen.back[y, x] == screen.fb[y, x] == Scene(wins, cx, cy, x, y))
        && (pending != [] ==> Scene(snapshot.wins, snapshot.x, snapshot.y, x, y) == Scene(wins, cx, cy, x, y))
    }

    /** The whole screen shows what a full repaint from back to front would have made it. */
    ghost predicate Shows()
      requires screen.Valid()
      reads this`wins, this`cursorX, this`cursorY, screen.back, screen.fb
    {
      forall y, x :: 0 <= y < screen.height && 0 <= x < screen.width ==>
        screen.back[y, x] == screen.fb[y, x] == Scene(wins, cursorX, cursorY, x, y)
    }

    lemma ExplainedStaysUpToDate(wins: seq<Win>, cx: int, cy: int, dirty: seq<Rect>,
                                 wins': seq<Win>, cx': int, cy': int, dirty': seq<Rect>)
      requires screen.Valid() && UpToDate(wins, cx, cy, dirty)
      requires Explains(screen.Whole(), wins, cx, cy, dirty, wins', cx', cy', dirty')
      ensures UpToDate(wins', cx', cy', dirty')
    {
    }

    ghost predicate Valid()
      reads this, rects, screen.back, screen.fb
    {
      && Structure() && WindowsOk()
      && (cursorReady ==> cursorX == lastX && cursorY == lastY)
      && SnapshotOk()
      && (!lost ==> |wins| <= MAX_WINDOWS && NoneTooSmall(wins) && UpToDate(wins, cursorX, cursorY, Dirty()))
    }

    ghost predicate SnapshotOk()
      reads this`snapshot, this`lost
    {
      BuffersFit(snapshot.wins) && (!lost ==> |snapshot.wins| <= MAX_WINDOWS)
    }

    /** window_init. */
    constructor (width: nat, height: nat)
      ensures Valid() && !lost && wins == [] && dragging == None && !cursorReady && pending == []
      ensures Dirty() == (if width > 0 && height > 0 then [screen.Whole()] else []) && cursorX == cursorY == 0 && nextId == 1
      ensures screen.width == width && screen.height == height
      ensures fresh(rects) && fresh(screen) && fresh(screen.back) && fresh(screen.fb)
    {
      screen := new Screen(width, height);
      rects := new Rect[MAX_DIRTY](_ => Rect(0, 0, 0, 0));
      dirtyCount := 0;
      wins := [];
      nextId := 1;
      cursorX, cursorY, cursorReady := 0, 0, false;
      dragging, offX, offY := None, 0, 0;
      lastX, lastY, lastButtons := 0, 0, 0;
      lost, pending, snapshot := false, [], Snapshot([], 0, 0);
      new;
      QueueDirty(screen.Whole());
      QueueCovers([], screen.Whole(), screen.Whole());
      assert forall x, y :: 0 <= y < height && 0 <= x < width ==> Covers(screen.Whole(), x, y);
    }

    /** rect_intersect with every queued rectangle in turn, then merge, append or collapse:
        queue_dirty_rect. */
    method QueueDirty(rect: Rect)
      requires Structure()
      modifies this`dirtyCount, this`lost, rects
      ensures Structure() && Dirty() == Queue(old(Dirty()), screen.Whole(), rect)
      ensures lost == (old(lost) || Overflows(old(Dirty()), screen.Whole(), rect))
    {
      ghost var was := Dirty();
      var clipped := Intersect(rect, screen.Whole());
      if clipped.None? { return; }
      var c := clipped.value;
      var i := 0;
      while i < dirtyCount
        invariant i <= dirtyCount == |was| && Structure() && Dirty() == was && lost == old(lost)
        invariant FirstOverlap(was, c, 0) == FirstOverlap(was, c, i)
      {
        if Intersect(rects[i], c).Some? {
          rects[i] := Union(rects[i], c);
          return;
        }
        i := i + 1;
      }
      if dirtyCount < MAX_DIRTY {
        rects[dirtyCount] := c;
        dirtyCount := dirtyCount + 1;
        return;
      }
      rects[0] := Union(rects[0], c);
      dirtyCount := 1;
      lost := true;
    }

    // ------------------------------------------------------------ changing the windows

    /** window_create. */
    method CreateWindow(x: int, y: int, w: nat, h: nat, bg: int) returns (id: nat)
      requires Valid()
      modifies this`wins, this`nextId, this`dirtyCount, this`lost, rects
      ensures Valid() && id == old(nextId) && nextId == id + 1
      ensures var win := Win(id, x, y, w, h, 0xFF555555, bg, None, 0);
        && wins == [win] + old(wins)
        && Dirty() == Queue(old(Dirty()), screen.Whole(), Outer(win))
        && lost == (old(lost) || Overflows(old(Dirty()), screen.Whole(), Outer(win)) || TooSmall(win) || |wins| > MAX_WINDOWS)
    {
      id := nextId;
      nextId := id + 1;
      AddFirst(NewWin(id, x, y, w, h, bg));
    }

    method AddFirst(win: Win)
      requires Structure() && DeskOk(State()) && WinsOk(wins, win.id) && WinOk(win) && nextId == win.id + 1
      requires cursorReady ==> cursorX == lastX && cursorY == lastY
      requires SnapshotOk()
      requires !lost ==> |wins| <= MAX_WINDOWS && NoneTooSmall(wins) && UpToDate(wins, cursorX, cursorY, Dirty())
      modifies this`wins, this`dirtyCount, this`lost, rects
      ensures Valid() && wins == [win] + old(wins) && Dirty() == Queue(old(Dirty()), screen.Whole(), Outer(win))
      ensures lost == (old(lost) || Overflows(old(Dirty()), screen.Whole(), Outer(win)) || TooSmall(win) || |wins| > MAX_WINDOWS)
    {
      hide DeskOk, WinsOk, WinOk, TooSmall, Overflows;
      ghost var was, dirty := wins, Dirty();
      CreateKeepsDesk(State(), win);
      wins := [win] + wins;
      QueueDirty(Outer(win));
      lost := lost || TooSmall(win) || |wins| > MAX_WINDOWS;
      if !lost {
        CreateExplained(screen.Whole(), was, win, cursorX, cursorY, dirty);
        ExplainedStaysUpToDate(was, cursorX, cursorY, dirty, wins, cursorX, cursorY, Dirty());
      }
    }

    method FindWindow(id: nat) returns (i: nat)
      ensures i == IndexOf(wins, id)
    {
      i := 0;
      while i < |wins| && wins[i].id != id
        invariant i <= |wins| && IndexOf(wins, id) == i + IndexOf(wins[i..], id)
      {
        assert wins[i..][1..] == wins[i + 1..];
        i := i + 1;
      }
    }

    /** One window replaced by a version of itself that differs only inside a rectangle. */
    method ReplaceWindow(i: nat, win: Win, region: Rect)
      requires Valid() && i < |wins| && WinOk(win) && win.id == wins[i].id && win.w == wins[i].w && win.h == wins[i].h
      requires ChangesOnlyIn(wins[i], win, region)
      modifies this`wins, this`dirtyCount, this`lost, rects
      ensures Valid() && wins == old(wins)[i := win]
      ensures Dirty() == Queue(old(Dirty()), screen.Whole(), region)
      ensures lost == (old(lost) || Overflows(old(Dirty()), screen.Whole(), region))
    {
      ghost var was, dirty := wins, Dirty();
      ReplaceKeepsDesk(State(), i, win, nextId);
      wins := wins[i := win];
      QueueDirty(region);
      if !lost {
        ReplaceExplained(screen.Whole(), was, i, win, region, cursorX, cursorY, dirty);
        ExplainedStaysUpToDate(was, cursorX, cursorY, dirty, wins, cursorX, cursorY, Dirty());
      }
    }

    /** window_set_owner. */
    method SetOwner(id: nat, pid: nat)
      requires Valid()
      modifies this`wins
      ensures Valid()
      ensures var i := IndexOf(old(wins), id);
        wins == if i == |old(wins)| then old(wins) else old(wins)[i := old(wins)[i].(owner := pid)]
    {
      var i := FindWindow(id);
      if i == |wins| { return; }
      hide WinOk;
      ghost var was := wins;
      OwnerIsNotPainted(wins[i], pid);
      ReplaceKeepsDesk(State(), i, wins[i].(owner := pid), nextId);
      wins := wins[i := wins[i].(owner := pid)];
      if !lost {
        RelabelExplained(screen.Whole(), was, i, pid, cursorX, cursorY, Dirty());
        ExplainedStaysUpToDate(was, cursorX, cursorY, Dirty(), wins, cursorX, cursorY, Dirty());
      }
    }

    /** window_set_buffer. */
    method SetBuffer(id: nat, buffer: Option<seq<int>>)
      requires Valid()
      requires var i := IndexOf(wins, id); i < |wins| ==> WinOk(wins[i].(buffer := buffer))
      modifies this`wins, this`dirtyCount, this`lost, rects
      ensures Valid()
      ensures var i := IndexOf(old(wins), id);
        if i == |old(wins)| then wins == old(wins) && Dirty() == old(Dirty()) && lost == old(lost)
        else
          && wins == old(wins)[i := old(wins)[i].(buffer := buffer)]
          && Dirty() == Queue(old(Dirty()), screen.Whole(), Outer(wins[i]))
          && lost == (old(lost) || Overflows(old(Dirty()), screen.Whole(), Outer(wins[i])))
    {
      var i := FindWindow(id);
      if i == |wins| { return; }
      SetBufferChangesInside(wins[i], buffer);
      ReplaceWindow(i, wins[i].(buffer := buffer), Outer(wins[i]));
    }

    /** A client that has drawn inside one region of its buffer calls window_mark_region_dirty. */
    method WriteRegion(id: nat, pixels: seq<int>, x: int, y: int, w: int, h: int)
      requires Valid()
      requires var i := IndexOf(wins, id); i < |wins| ==>
        && WinOk(wins[i].(buffer := Some(pixels)))
        && WroteOnly(wins[i], pixels, x, y, w, h)
      modifies this`wins, this`dirtyCount, this`lost, rects
      ensures Valid()
      ensures var i := IndexOf(old(wins), id);
        if i == |old(wins)| then wins == old(wins) && Dirty() == old(Dirty()) && lost == old(lost)
        else
          && wins == old(wins)[i := old(wins)[i].(buffer := Some(pixels))]
          && Dirty() == Queue(old(Dirty()), screen.Whole(), RegionOf(wins[i], x, y, w, h))
          && lost == (old(lost) || Overflows(old(Dirty()), screen.Whole(), RegionOf(wins[i], x, y, w, h)))
    {
      var i := FindWindow(id);
      if i == |wins| { return; }
      WriteInto(i, pixels, x, y, w, h);
    }

    method WriteInto(i: nat, pixels: seq<int>, x: int, y: int, w: int, h: int)
      requires Valid() && i < |wins| && WinOk(wins[i].(buffer := Some(pixels))) && WroteOnly(wins[i], pixels, x, y, w, h)
      modifies this`wins, this`dirtyCount, this`lost, rects
      ensures Valid() && wins == old(wins)[i := old(wins)[i].(buffer := Some(pixels))]
      ensures Dirty() == Queue(old(Dirty()), screen.Whole(), RegionOf(old(wins)[i], x, y, w, h))
      ensures lost == (old(lost) || Overflows(old(Dirty()), screen.Whole(), RegionOf(old(wins)[i], x, y, w, h)))
    {
      hide WinOk, WroteOnly, ChangesOnlyIn, Overflows, Queue, RegionOf;
      WriteRegionChangesInside(wins[i], pixels, x, y, w, h);
      ReplaceWindow(i, wins[i].(buffer := Some(pixels)), RegionOf(wins[i], x, y, w, h));
    }

    /** window_destroy_by_pid. */
    method DestroyByPid(pid: nat)
      requires Valid()
      modifies this`wins, this`dragging, this`dirtyCount, this`lost, rects
      ensures Valid() && wins == NotOwnedBy(old(wins), pid)
      ensures dragging ==
        if old(dragging).Some? && (exists k :: 0 <= k < |wins| && wins[k].id == old(dragging).value) then old(dragging) else None
      ensures Dirty() == QueueAll(old(Dirty()), screen.Whole(), OwnedRects(old(wins), pid))
      ensures lost == (old(lost) || AnyOverflow(old(Dirty()), screen.Whole(), OwnedRects(old(wins), pid)))
    {
      ghost var was, dirty := wins, Dirty();
      UnlinkOwned(pid);
      HeldWhileListed(old(dragging), wins);
      if !lost {
        DestroyExplained(screen.Whole(), was, pid, cursorX, cursorY, dirty);
        ExplainedStaysUpToDate(was, cursorX, cursorY, dirty, wins, cursorX, cursorY, Dirty());
      }
    }

    /** The scan of the list. */
    method UnlinkOwned(pid: nat)
      requires Structure() && WindowsOk()
      modifies this`wins, this`dragging, this`dirtyCount, this`lost, rects
      ensures Structure() && WindowsOk() && wins == NotOwnedBy(old(wins), pid)
      ensures dragging == DraggedStill(old(dragging), wins)
      ensures Dirty() == QueueAll(old(Dirty()), screen.Whole(), OwnedRects(old(wins), pid))
      ensures lost == (old(lost) || AnyOverflow(old(Dirty()), screen.Whole(), OwnedRects(old(wins), pid)))
      ensures NoneTooSmall(old(wins)) ==> NoneTooSmall(wins)
    {
      ghost var was, dirty, held := wins, Dirty(), dragging;
      ghost var k := 0;
      var i := 0;
      while i < |wins|
        invariant Structure() && WindowsOk() && Scanned(was, pid, k, wins, i)
        invariant Dirty() == QueueAll(dirty, screen.Whole(), OwnedRects(was[..k], pid))
        invariant lost == (old(lost) || AnyOverflow(dirty, screen.Whole(), OwnedRects(was[..k], pid)))
        invariant dragging == DraggedStill(held, wins)
        invariant NoneTooSmall(was) ==> NoneTooSmall(wins)
        decreases |wins| - i
      {
        ScanStep(was, pid, k, wins, i);
        ScanRects(was, pid, k, screen.Whole(), dirty);
        if wins[i].owner == pid {
          Unlink(i, held);
        } else {
          i := i + 1;
        }
        k := k + 1;
      }
      ScanDone(was, pid, k, wins, i);
    }

    /** One window queued for repaint, taken out of the list and dropped by the mouse. */
    method Unlink(i: nat, ghost held: Option<nat>)
      requires Structure() && WindowsOk() && i < |wins| && dragging == DraggedStill(held, wins)
      modifies this`wins, this`dragging, this`dirtyCount, this`lost, rects
      ensures Structure() && WindowsOk() && wins == old(wins)[..i] + old(wins)[i + 1..]
      ensures dragging == DraggedStill(held, wins)
      ensures Dirty() == Queue(old(Dirty()), screen.Whole(), Outer(old(wins)[i]))
      ensures lost == (old(lost) || Overflows(old(Dirty()), screen.Whole(), Outer(old(wins)[i])))
      ensures NoneTooSmall(old(wins)) ==> NoneTooSmall(wins)
    {
      RemoveKeepsDesk(State(), i, nextId);
      if held.Some? { RemovedIsGone(wins, i, held.value); }
      QueueDirty(Outer(wins[i]));
      if dragging == Some(wins[i].id) { dragging := None; }
      wins := wins[..i] + wins[i + 1..];
    }

    // ------------------------------------------------------------ the mouse

    /** find_window_hit over a snapshot of the list. */
    method FindWindowHit(snapshot: seq<Win>, mx: int, my: int) returns (i: nat)
      ensures i == HitIndex(snapshot, mx, my)
    {
      i := 0;
      while i < |snapshot| && !HitBy(snapshot[i], mx, my)
        invariant i <= |snapshot| && HitIndex(snapshot, mx, my) == i + HitIndex(snapshot[i..], mx, my)
      {
        assert snapshot[i..][1..] == snapshot[i + 1..];
        i := i + 1;
      }
    }

    /** The part of window_update that presses, drags and lets go. */
    method HandleButton(mx: int, my: int, left: bool)
      requires Structure() && DeskOk(State())
      modifies this`wins, this`dragging, this`offX, this`offY, this`dirtyCount, this`lost, rects
      ensures Structure() && State() == AfterMouse(old(State()), mx, my, left)
      ensures Dirty() == QueueAll(old(Dirty()), screen.Whole(), MouseRects(old(State()), mx, my, left))
    {
      if !left {
        dragging := None;
      } else if dragging.None? {
        var i := FindWindowHit(Shown(wins), mx, my);
        if i < |Shown(wins)| && InTitle(wins[i], my) { StartDrag(i, mx, my); }
      } else {
        var i := FindWindow(dragging.value);
        DragTo(i, mx, my);
      }
    }

    method QueueTwo(a: Rect, b: Rect)
      requires Structure()
      modifies this`dirtyCount, this`lost, rects
      ensures Structure() && Dirty() == QueueAll(old(Dirty()), screen.Whole(), [a, b])
    {
      TwoRects(Dirty(), screen.Whole(), a, b);
      QueueDirty(a);
      QueueDirty(b);
    }

    /** The press: the window is held and, unless it is first already, moved to the front. */
    method StartDrag(i: nat, mx: int, my: int)
      requires Structure() && i < |wins|
      modifies this`wins, this`dragging, this`offX, this`offY, this`dirtyCount, this`lost, rects
      ensures Structure()
      ensures State() == Desk(Raised(old(wins), i), Some(old(wins)[i].id), mx - old(wins)[i].x, my - old(wins)[i].y)
      ensures var win := old(wins)[i];
        var queued := if i == 0 then [] else [Outer(win), Outer(win)];
        && Dirty() == QueueAll(old(Dirty()), screen.Whole(), queued)
    {
      var win := wins[i];
      dragging := Some(win.id);
      offX := mx - win.x;
      offY := my - win.y;
      if i != 0 {
        wins := [win] + wins[..i] + wins[i + 1..];
        QueueTwo(Outer(win), Outer(win));
      } else {
        assert Raised(wins, 0) == wins;
      }
    }

    /** The move: the held window follows. */
    method DragTo(i: nat, mx: int, my: int)
      requires Structure() && i < |wins|
      modifies this`wins, this`dirtyCount, this`lost, rects
      ensures Structure() && wins == old(wins)[i := old(wins)[i].(x := mx - offX, y := my - offY)]
      ensures var queued := [Outer(old(wins)[i]), Outer(wins[i])];
        && Dirty() == QueueAll(old(Dirty()), screen.Whole(), queued)
    {
      var win := wins[i];
      var moved := win.(x := mx - offX, y := my - offY);
      wins := wins[i := moved];
      QueueTwo(Outer(win), Outer(moved));
    }

    /** Whether window_update returns at once. */
    predicate Idle(mx: int, my: int, buttons: nat)
      reads this`cursorReady, this`dragging, this`lastX, this`lastY, this`lastButtons
    {
      cursorReady && dragging.None? && mx == lastX && my == lastY && buttons == lastButtons
    }

    ghost function Pointer(): Arrow
      reads this`cursorReady, this`cursorX, this`cursorY, this`lastX, this`lastY
    {
      Arrow(cursorReady, cursorX, cursorY, lastX, lastY)
    }

    /** window_update, from the mouse report to the last rectangle queued; only the lowest bit of
        the buttons presses. The loss recorded here is an overflow, or an exposed arrow drawn
        before the first report. */
    method WindowUpdate(mx: int, my: int, buttons: nat)
      requires Valid()
      modifies this`wins, this`dragging, this`offX, this`offY, this`dirtyCount, this`lost, rects
      modifies this`cursorX, this`cursorY, this`cursorReady, this`lastX, this`lastY, this`lastButtons
      ensures Valid()
      ensures old(cursorReady && dragging.None? && mx == lastX && my == lastY && buttons == lastButtons) ==>
        State() == old(State()) && Dirty() == old(Dirty()) && lost == old(lost) && cursorReady && (cursorX, cursorY) == (mx, my)
      ensures !old(cursorReady && dragging.None? && mx == lastX && my == lastY && buttons == lastButtons) ==>
        var left := buttons % 2 == 1;
        && State() == AfterMouse(old(State()), mx, my, left)
        && cursorReady && cursorX == lastX == mx && cursorY == lastY == my && lastButtons == buttons
        && Dirty() == QueueAll(old(Dirty()), screen.Whole(), UpdateRects(old(State()), old(Pointer()), mx, my, left))
        && lost == (old(lost) || Escapes(screen.Whole(), old(State()), old(Pointer()), mx, my, left, old(Dirty())))
    {
      if !Idle(mx, my, buttons) { Update(mx, my, buttons); }
    }

    /** The update of a mouse that did something. */
    method Update(mx: int, my: int, buttons: nat)
      requires Valid()
      modifies this`wins, this`dragging, this`offX, this`offY, this`dirtyCount, this`lost, rects
      modifies this`cursorX, this`cursorY, this`cursorReady, this`lastX, this`lastY, this`lastButtons
      ensures var left := buttons % 2 == 1;
        && Valid() && State() == AfterMouse(old(State()), mx, my, left)
        && cursorReady && cursorX == lastX == mx && cursorY == lastY == my && lastButtons == buttons
        && Dirty() == QueueAll(old(Dirty()), screen.Whole(), UpdateRects(old(State()), old(Pointer()), mx, my, left))
        && lost == (old(lost) || Escapes(screen.Whole(), old(State()), old(Pointer()), mx, my, left, old(Dirty())))
    {
      hide AfterMouse, Escapes, UpdateRects, QueueAll, DeskOk, WinsOk;
      ghost var was, dirty, a := State(), Dirty(), Pointer();
      var left := buttons % 2 == 1;
      ghost var loss := lost || Escapes(screen.Whole(), was, a, mx, my, left, dirty);
      MouseKeepsDesk(was, mx, my, left);
      MouseKeepsWins(was, mx, my, left, nextId);
      QueueUpdate(mx, my, left);
      if !loss { UpdateStaysUpToDate(was, a, mx, my, left, dirty, wins, Dirty()); }
      Settle(mx, my, buttons, loss);
    }

    /** The end of the update: the cursor is where the mouse is. */
    method Settle(mx: int, my: int, buttons: nat, ghost loss: bool)
      requires Structure() && WindowsOk() && cursorReady && BuffersFit(snapshot.wins)
      requires !loss ==>
        |snapshot.wins| <= MAX_WINDOWS && |wins| <= MAX_WINDOWS && NoneTooSmall(wins) && UpToDate(wins, mx, my, Dirty())
      modifies this`lost, this`cursorX, this`cursorY, this`lastX, this`lastY, this`lastButtons
      ensures Valid() && cursorX == lastX == mx && cursorY == lastY == my && lastButtons == buttons && lost == loss
    {
      lost := loss;
      cursorX := mx;
      cursorY := my;
      lastX := mx;
      lastY := my;
      lastButtons := buttons;
    }

    lemma {:induction false} UpdateStaysUpToDate(was: Desk, a: Arrow, mx: int, my: int, left: bool, dirty: seq<Rect>,
                              wins': seq<Win>, dirty': seq<Rect>)
      requires screen.Valid() && UpToDate(was.wins, a.x, a.y, dirty)
      requires DeskOk(was) && NoneTooSmall(was.wins) && (a.ready ==> a.x == a.lastX && a.y == a.lastY)
      requires !Escapes(screen.Whole(), was, a, mx, my, left, dirty)
      requires wins' == AfterMouse(was, mx, my, left).wins
      requires dirty' == QueueAll(dirty, screen.Whole(), UpdateRects(was, a, mx, my, left))
      ensures UpToDate(wins', mx, my, dirty')
    {
      UpdateExplained(screen.Whole(), was, a, mx, my, left, dirty);
      ExplainedStaysUpToDate(was.wins, a.x, a.y, dirty, wins', mx, my, dirty');
    }

    /** What one window_update does to the windows and queues on the way. */
    method QueueUpdate(mx: int, my: int, left: bool)
      requires Structure() && DeskOk(State())
      modifies this`wins, this`dragging, this`offX, this`offY, this`dirtyCount, this`lost, rects
      modifies this`cursorX, this`cursorY, this`cursorReady
      ensures Structure() && cursorReady && State() == AfterMouse(old(State()), mx, my, left)
      ensures Dirty() == QueueAll(old(Dirty()), screen.Whole(), UpdateRects(old(State()), old(Pointer()), mx, my, left))
    {
      hide AfterMouse, MouseRects, FirstRects, CursorRects, QueueAll, DeskOk;
      ghost var dirty, a, pressed := Dirty(), Pointer(), MouseRects(State(), mx, my, left);
      StartCursor(mx, my);
      ghost var first := Dirty();
      HandleButton(mx, my, left);
      ghost var second := Dirty();
      QueueCursor(mx, my, a);
      PartsAddUp(screen.Whole(), dirty, FirstRects(a, mx, my), pressed, CursorRects(a, mx, my), first, second, Dirty());
    }

    /** The first report places the cursor and queues it. */
    method StartCursor(mx: int, my: int)
      requires Structure()
      modifies this`dirtyCount, this`lost, rects, this`cursorX, this`cursorY, this`cursorReady
      ensures Structure() && cursorReady
      ensures (cursorX, cursorY) == if old(cursorReady) then (old(cursorX), old(cursorY)) else (mx, my)
      ensures Dirty() == QueueAll(old(Dirty()), screen.Whole(), FirstRects(old(Pointer()), mx, my))
    {
      if !cursorReady {
        QueueOneMore(Dirty(), screen.Whole(), [], CursorRect(mx, my));
        assert [] + [CursorRect(mx, my)] == [CursorRect(mx, my)];
        cursorReady := true;
        cursorX := mx;
        cursorY := my;
        QueueDirty(CursorRect(mx, my));
      }
    }

    /** A moved mouse queues the arrow's old and new place. */
    method QueueCursor(mx: int, my: int, ghost a: Arrow)
      requires Structure() && (a.lastX, a.lastY) == (lastX, lastY)
      requires (cursorX, cursorY) == if a.ready then (a.x, a.y) else (mx, my)
      modifies this`dirtyCount, this`lost, rects
      ensures Structure() && Dirty() == QueueAll(old(Dirty()), screen.Whole(), CursorRects(a, mx, my))
    {
      if mx != lastX || my != lastY {
        QueueTwo(CursorRect(cursorX, cursorY), CursorRect(mx, my));
      }
    }

    // ------------------------------------------------------------ drawing

    /** The first locked section of window_draw_all: the dirty list is taken, and a snapshot of
        the windows and the cursor with it. */
    method BeginDraw() returns (redraw: seq<Rect>, shown: seq<Win>, x: int, y: int)
      requires Valid() && pending == []
      modifies this`dirtyCount, this`pending, this`snapshot
      ensures Valid() && Dirty() == [] && redraw == pending == old(Dirty())
      ensures shown == Shown(wins) && x == cursorX && y == cursorY && snapshot == Snapshot(wins, x, y)
    {
      redraw, shown, x, y := rects[..dirtyCount], Shown(wins), cursorX, cursorY;
      dirtyCount := 0;
      pending := redraw;
      snapshot := Snapshot(wins, x, y);
    }

    /** The drawing between and the second locked section, whatever other sections ran meanwhile.
        What was taken now shows the snapshot on both buffers, nothing else becomes visible, and
        if no change was ever lost every pixel not dirty again shows the scene of now. */
    method FinishDraw(redraw: seq<Rect>, shown: seq<Win>, x: int, y: int)
      requires Valid() && redraw == pending && shown == Shown(snapshot.wins) && (x, y) == (snapshot.x, snapshot.y)
      modifies this`pending, screen.back, screen.fb
      ensures Valid() && pending == []
      ensures forall i, j :: 0 <= i < screen.height && 0 <= j < screen.width ==>
        if Covered(redraw, j, i) then screen.back[i, j] == screen.fb[i, j] == Scene(shown, x, y, j, i)
        else
          && screen.fb[i, j] == old(screen.fb[i, j])
          && (screen.back[i, j] == old(screen.back[i, j]) || (InCursor(x, y, j, i) && screen.back[i, j] == WHITE))
    {
      if |redraw| > 0 {
        Repaint(screen, redraw, shown, x, y);
        screen.SwapRects(redraw);
      }
      pending := [];
    }

    /** window_draw_all with nothing in between: if no change was ever lost, the whole screen is
        what a full repaint would have made it. */
    method DrawAll()
      requires Valid() && pending == []
      modifies this`dirtyCount, this`pending, this`snapshot, screen.back, screen.fb
      ensures Valid() && pending == [] && Dirty() == []
      ensures forall i, j :: 0 <= i < screen.height && 0 <= j < screen.width ==>
        if Covered(old(Dirty()), j, i) then screen.back[i, j] == screen.fb[i, j] == Scene(Shown(wins), cursorX, cursorY, j, i)
        else
          && screen.fb[i, j] == old(screen.fb[i, j])
          && (screen.back[i, j] == old(screen.back[i, j]) || (InCursor(cursorX, cursorY, j, i) && screen.back[i, j] == WHITE))
      ensures !lost ==> Shows()
    {
      var redraw, shown, x, y := BeginDraw();
      FinishDraw(redraw, shown, x, y);
    }

    // ------------------------------------------------------------ the main loop

    /** One turn of the main loop: a mouse report and a repaint. It loses nothing as long as at
        most 27 rectangles wait, and the first turn comes before anything is drawn. */
    method Turn(mx: int, my: int, buttons: nat)
      requires Valid() && !lost && pending == [] && dirtyCount <= 27
      requires cursorReady || ArrowDirty(screen.Whole(), cursorX, cursorY, Dirty())
      modifies this`wins, this`dragging, this`offX, this`offY, this`dirtyCount, this`lost, rects
      modifies this`cursorX, this`cursorY, this`cursorReady, this`lastX, this`lastY, this`lastButtons
      modifies this`pending, this`snapshot, screen.back, screen.fb
      ensures Valid() && !lost && pending == [] && Dirty() == []
      ensures cursorReady && (cursorX, cursorY) == (mx, my) && Shows()
    {
      UpdateNeverEscapes(screen.Whole(), State(), Pointer(), mx, my, buttons % 2 == 1, Dirty());
      WindowUpdate(mx, my, buttons);
      DrawAll();
    }
  }

  datatype Report = Report(x: int, y: int, buttons: nat)

  /** The end of kernel_main (src/kernel/main.c): window_init, the shell's window and its buffer,
      then one turn for every mouse report. After any number of turns nothing was lost and the
      screen is what a full repaint would have made it. */
  method MainLoop(width: nat, height: nat, reports: seq<Report>, pixels: seq<int>) returns (d: Desktop)
    requires |pixels| == 600 * 375
    ensures d.Valid() && !d.lost && d.screen.width == width && d.screen.height == height
    ensures reports != [] ==> d.Dirty() == [] && d.Shows()
  {
    d := new Desktop(width, height);
    assert forall x, y :: Covers(d.screen.Whole(), x, y) ==> d.Dirty() != [] && Covers(d.Dirty()[0], x, y);
    assert AllDirty(d.screen.Whole(), d.Dirty());
    OpenShell(d, pixels);
    AllDirtyArrow(d.screen.Whole(), d.cursorX, d.cursorY, d.Dirty());
    var i := 0;
    while i < |reports|
      invariant i <= |reports| && d.Valid() && !d.lost && d.pending == [] && d.dirtyCount <= 27
      invariant d.cursorReady || ArrowDirty(d.screen.Whole(), d.cursorX, d.cursorY, d.Dirty())
      invariant i > 0 ==> d.Dirty() == [] && d.Shows()
    {
      d.Turn(reports[i].x, reports[i].y, reports[i].buttons);
      i := i + 1;
    }
  }

  /** The shell's window, whose buffer kernel_main puts in place itself: nothing is queued for it,
      and nothing need be, as the whole screen still waits to be drawn. */
  method OpenShell(d: Desktop, pixels: seq<int>)
    requires |pixels| == 600 * 375
    requires d.Valid() && !d.lost && d.pending == [] && d.wins == [] && d.dirtyCount <= 1
    requires AllDirty(d.screen.Whole(), d.Dirty())
    modifies d`wins, d`nextId, d`dirtyCount, d`lost, d.rects
    ensures d.Valid() && !d.lost && d.dirtyCount <= 2
    ensures d.wins == [Win(old(d.nextId), 50, 50, 600, 400, 0xFF555555, 0xFF333333, Some(pixels), 0)]
    ensures AllDirty(d.screen.Whole(), d.Dirty())
  {
    ghost var empty := d.Dirty();
    var shell := d.CreateWindow(50, 50, 600, 400, 0xFF333333);
    QueueWithRoom(empty, d.screen.Whole(), Outer(d.wins[0]));
    BufferFits(d.wins[0], pixels);
    ReplaceKeepsDesk(d.State(), 0, d.wins[0].(buffer := Some(pixels)), d.nextId);
    d.wins := d.wins[0 := d.wins[0].(buffer := Some(pixels))];
  }
}

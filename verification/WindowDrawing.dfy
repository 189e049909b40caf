/** Drawing windows through a clip rectangle, and the repaint of a list of dirty rectangles
    (the drawing half of src/kernel/window.c). */
module WindowDrawing {
  import opened Common
  import opened Painting
  import opened GraphicsScreen

  /** draw_rect_clipped. */
  method DrawRectClipped(screen: Screen, clip: Rect, target: Rect, color: int)
    requires screen.Valid()
    modifies screen.back
    ensures forall y, x :: 0 <= y < screen.height && 0 <= x < screen.width ==>
      screen.back[y, x] == if Covers(clip, x, y) && Covers(target, x, y) then color else old(screen.back[y, x])
  {
    var r := Intersect(clip, target);
    if r.None? { return; }
    screen.DrawRect(r.value, color);
  }

  /** draw_window_buffer_clipped. */
  method DrawBufferClipped(screen: Screen, clip: Rect, win: Win)
    requires screen.Valid() && WinOk(win)
    modifies screen.back
    ensures forall y, x :: 0 <= y < screen.height && 0 <= x < screen.width ==>
      screen.back[y, x] ==
        if Covers(clip, x, y) && Covers(Body(win), x, y) then BodyColor(win, x, y) else old(screen.back[y, x])
  {
    if win.buffer.None? {
      DrawRectClipped(screen, clip, Body(win), win.bg);
      return;
    }
    var body := Body(win);
    var inter := Intersect(clip, body);
    if inter.None? { return; }
    var r, pixels := inter.value, win.buffer.value;
    var srcX, srcY := r.x - win.x, r.y - (win.y + TITLE_HEIGHT);
    var i := 0;
    while i < r.h
      invariant 0 <= i <= r.h
      invariant forall y, x :: 0 <= y < screen.height && 0 <= x < screen.width ==>
        screen.back[y, x] == if Covers(r, x, y) && y < r.y + i then BodyColor(win, x, y) else old(screen.back[y, x])
    {
      var j := 0;
      while j < r.w
        invariant 0 <= j <= r.w
        invariant forall y, x :: 0 <= y < screen.height && 0 <= x < screen.width ==>
          screen.back[y, x] ==
            if Covers(r, x, y) && (y < r.y + i || (y == r.y + i && x < r.x + j)) then BodyColor(win, x, y)
            else old(screen.back[y, x])
      {
        assert Covers(r, r.x + j, r.y + i) && Covers(body, r.x + j, r.y + i);
        assert (srcY + i) * win.w + (srcX + j) == BufferIndex(win, r.x + j, r.y + i);
        screen.PutPixel(r.x + j, r.y + i, pixels[(srcY + i) * win.w + (srcX + j)]);
        j := j + 1;
      }
      i := i + 1;
    }
  }

  /** The four border lines, all white. */
  method DrawBorderClipped(screen: Screen, clip: Rect, win: Win)
    requires screen.Valid()
    modifies screen.back
    ensures forall y, x :: 0 <= y < screen.height && 0 <= x < screen.width ==>
      screen.back[y, x] == if Covers(clip, x, y) && OnBorder(win, x, y) then WHITE else old(screen.back[y, x])
  {
    DrawRectClipped(screen, clip, Rect(win.x, win.y, win.w, 1), WHITE);
    DrawRectClipped(screen, clip, Rect(win.x, win.y + win.h - 1, win.w, 1), WHITE);
    DrawRectClipped(screen, clip, Rect(win.x, win.y, 1, win.h), WHITE);
    DrawRectClipped(screen, clip, Rect(win.x + win.w - 1, win.y, 1, win.h), WHITE);
  }

  /** draw_window_clipped: shadow, body, title and border, each over the last. */
  method DrawWindowClipped(screen: Screen, clip: Rect, win: Win)
    requires screen.Valid() && WinOk(win)
    modifies screen.back
    ensures forall y, x :: 0 <= y < screen.height && 0 <= x < screen.width ==>
      screen.back[y, x] ==
        if Covers(clip, x, y) && WinPixel(win, x, y).Some? then WinPixel(win, x, y).value else old(screen.back[y, x])
  {
    DrawRectClipped(screen, clip, Rect(win.x + SHADOW, win.y + SHADOW, win.w, win.h), SHADOW_COLOR);
    DrawBufferClipped(screen, clip, win);
    DrawRectClipped(screen, clip, Rect(win.x, win.y, win.w, TITLE_HEIGHT), win.title);
    DrawBorderClipped(screen, clip, win);
  }

  /** One dirty rectangle: cleared, then every window from back to front. */
  method RedrawRect(screen: Screen, clip: Rect, shown: seq<Win>)
    requires screen.Valid() && forall k {:trigger shown[k]} :: 0 <= k < |shown| ==> WinOk(shown[k])
    modifies screen.back
    ensures forall y, x :: 0 <= y < screen.height && 0 <= x < screen.width ==>
      screen.back[y, x] == if Covers(clip, x, y) then Top(shown, x, y) else old(screen.back[y, x])
  {
    screen.ClearRect(clip, DESKTOP_COLOR);
    var j := |shown|;
    while j > 0
      invariant 0 <= j <= |shown|
      invariant forall y, x :: 0 <= y < screen.height && 0 <= x < screen.width ==>
        screen.back[y, x] == if Covers(clip, x, y) then Top(shown[j..], x, y) else old(screen.back[y, x])
    {
      j := j - 1;
      assert shown[j..][1..] == shown[j + 1..];
      DrawWindowClipped(screen, clip, shown[j]);
    }
    assert shown[0..] == shown;
  }

  /** What window_draw_all draws: the dirty rectangles, then the arrow if it shows in one. */
  method Repaint(screen: Screen, redraw: seq<Rect>, shown: seq<Win>, cx: int, cy: int)
    requires screen.Valid() && forall k {:trigger shown[k]} :: 0 <= k < |shown| ==> WinOk(shown[k])
    modifies screen.back
    ensures forall y, x :: 0 <= y < screen.height && 0 <= x < screen.width ==>
      if Covered(redraw, x, y) then screen.back[y, x] == Scene(shown, cx, cy, x, y)
      else screen.back[y, x] == old(screen.back[y, x]) || (InCursor(cx, cy, x, y) && screen.back[y, x] == WHITE)
  {
    DrawWindows(screen, redraw, shown);
    var i := 0;
    while i < |redraw| && Intersect(redraw[i], CursorRect(cx, cy)).None?
      invariant i <= |redraw|
      invariant forall k :: 0 <= k < i ==> Intersect(redraw[k], CursorRect(cx, cy)).None?
    {
      i := i + 1;
    }
    if i < |redraw| {
      screen.DrawCursor(cx, cy);
    } else {
      ArrowHidden(redraw, cx, cy);
    }
  }

  method DrawWindows(screen: Screen, redraw: seq<Rect>, shown: seq<Win>)
    requires screen.Valid() && forall k {:trigger shown[k]} :: 0 <= k < |shown| ==> WinOk(shown[k])
    modifies screen.back
    ensures forall y, x :: 0 <= y < screen.height && 0 <= x < screen.width ==>
      screen.back[y, x] == if Covered(redraw, x, y) then Top(shown, x, y) else old(screen.back[y, x])
  {
    var i := 0;
    while i < |redraw|
      invariant i <= |redraw|
      invariant forall y, x :: 0 <= y < screen.height && 0 <= x < screen.width ==>
        screen.back[y, x] == if Covered(redraw[..i], x, y) then Top(shown, x, y) else old(screen.back[y, x])
    {
      CoveredStep(redraw, i);
      RedrawRect(screen, redraw[i], shown);
      i := i + 1;
    }
    assert redraw[..i] == redraw;
  }

  lemma ArrowHidden(redraw: seq<Rect>, cx: int, cy: int)
    requires forall k :: 0 <= k < |redraw| ==> Intersect(redraw[k], CursorRect(cx, cy)).None?
    ensures forall x, y :: Covered(redraw, x, y) ==> !InCursor(cx, cy, x, y)
  {
    forall x, y | Covered(redraw, x, y) ensures !InCursor(cx, cy, x, y) {
      var k :| 0 <= k < |redraw| && Covers(redraw[k], x, y);
      assert Intersect(redraw[k], CursorRect(cx, cy)).None?;
      assert !Covers(CursorRect(cx, cy), x, y);
    }
  }
}

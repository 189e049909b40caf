/** What the desktop should look like, and the rectangle arithmetic of the dirty list
    (src/kernel/window.c). */
module Painting {
  import opened Common

  const MAX_DIRTY: nat := 32
  const MAX_WINDOWS: nat := 16
  const TITLE_HEIGHT: int := 25
  const SHADOW: int := 5
  const CURSOR_W: int := 10
  const CURSOR_H: int := 15

  const DESKTOP_COLOR: int := 0xFF112233
  const SHADOW_COLOR: int := 0xAA000000
  const WHITE: int := 0xFFFFFFFF

  datatype Rect = Rect(x: int, y: int, w: int, h: int)

  predicate Covers(r: Rect, x: int, y: int) {
    r.x <= x < r.x + r.w && r.y <= y < r.y + r.h
  }

  function Min(a: int, b: int): int { if a < b then a else b }

  function Max(a: int, b: int): int { if a > b then a else b }

  /** rect_union: the smallest rectangle around both. */
  function Union(a: Rect, b: Rect): (u: Rect)
    ensures forall x, y :: Covers(a, x, y) || Covers(b, x, y) ==> Covers(u, x, y)
  {
    var x1, y1 := Min(a.x, b.x), Min(a.y, b.y);
    Rect(x1, y1, Max(a.x + a.w, b.x + b.w) - x1, Max(a.y + a.h, b.y + b.h) - y1)
  }

  predicate Inside(a: Rect, b: Rect) {
    b.x <= a.x && a.x + a.w <= b.x + b.w && b.y <= a.y && a.y + a.h <= b.y + b.h
  }

  /** No smaller rectangle covers both. */
  lemma UnionIsSmallest(a: Rect, b: Rect, r: Rect)
    requires a.w > 0 && a.h > 0 && b.w > 0 && b.h > 0
    requires forall x, y :: Covers(a, x, y) || Covers(b, x, y) ==> Covers(r, x, y)
    ensures Inside(Union(a, b), r)
  {
    assert Covers(a, a.x, a.y) && Covers(a, a.x + a.w - 1, a.y + a.h - 1);
    assert Covers(b, b.x, b.y) && Covers(b, b.x + b.w - 1, b.y + b.h - 1);
  }

  /** rect_intersect: exactly the common pixels, and None when there are none. */
  function Intersect(a: Rect, b: Rect): (r: Option<Rect>)
    ensures r.Some? ==> forall x, y :: Covers(r.value, x, y) <==> Covers(a, x, y) && Covers(b, x, y)
    ensures r.Some? ==> Covers(r.value, r.value.x, r.value.y)
    ensures r.None? ==> forall x, y :: !(Covers(a, x, y) && Covers(b, x, y))
  {
    var x1, y1 := Max(a.x, b.x), Max(a.y, b.y);
    var x2, y2 := Min(a.x + a.w, b.x + b.w), Min(a.y + a.h, b.y + b.h);
    if x2 <= x1 || y2 <= y1 then None else Some(Rect(x1, y1, x2 - x1, y2 - y1))
  }

  // ---------------------------------------------------------------- the dirty list

  predicate Covered(dirty: seq<Rect>, x: int, y: int) {
    exists k :: 0 <= k < |dirty| && Covers(dirty[k], x, y)
  }

  lemma CoveredStep(rects: seq<Rect>, k: nat)
    requires k < |rects|
    ensures forall x, y :: Covered(rects[..k + 1], x, y) <==> Covered(rects[..k], x, y) || Covers(rects[k], x, y)
  {
    var shorter, longer := rects[..k], rects[..k + 1];
    assert longer[..k] == shorter && longer[k] == rects[k];
    forall x, y ensures Covered(longer, x, y) <==> Covered(shorter, x, y) || Covers(rects[k], x, y) {
      if Covered(shorter, x, y) {
        var i :| 0 <= i < k && Covers(shorter[i], x, y);
        assert Covers(longer[i], x, y);
      }
      if Covered(longer, x, y) && !Covers(rects[k], x, y) {
        var i :| 0 <= i < k + 1 && Covers(longer[i], x, y);
        assert i < k && Covers(shorter[i], x, y);
      }
      if Covers(rects[k], x, y) { assert Covers(longer[k], x, y); }
    }
  }

  /** The first rectangle from k on that overlaps r. */
  function FirstOverlap(dirty: seq<Rect>, r: Rect, k: nat): (i: nat)
    requires k <= |dirty|
    ensures k <= i <= |dirty|
    ensures i < |dirty| ==> Intersect(dirty[i], r).Some?
    ensures forall j :: k <= j < i ==> Intersect(dirty[j], r).None?
    decreases |dirty| - k
  {
    if k == |dirty| || Intersect(dirty[k], r).Some? then k else FirstOverlap(dirty, r, k + 1)
  }

  /** queue_dirty_rect. */
  function Queue(dirty: seq<Rect>, screen: Rect, rect: Rect): seq<Rect> {
    var c := Intersect(rect, screen);
    if c.None? then dirty
    else
      var i := FirstOverlap(dirty, c.value, 0);
      if i < |dirty| then dirty[i := Union(dirty[i], c.value)]
      else if |dirty| < MAX_DIRTY then dirty + [c.value]
      else [Union(dirty[0], c.value)]
  }

  /** The branch of queue_dirty_rect taken when the list is full and nothing overlaps. */
  predicate Overflows(dirty: seq<Rect>, screen: Rect, rect: Rect) {
    var c := Intersect(rect, screen);
    c.Some? && |dirty| >= MAX_DIRTY && FirstOverlap(dirty, c.value, 0) == |dirty|
  }

  /** Queueing forgets nothing, unless the list overflows. */
  lemma QueueCovers(dirty: seq<Rect>, screen: Rect, rect: Rect)
    requires !Overflows(dirty, screen, rect)
    ensures forall x, y :: Covered(dirty, x, y) ==> Covered(Queue(dirty, screen, rect), x, y)
    ensures forall x, y :: Covers(rect, x, y) && Covers(screen, x, y) ==> Covered(Queue(dirty, screen, rect), x, y)
  {
    var c, after := Intersect(rect, screen), Queue(dirty, screen, rect);
    if c.Some? {
      var i := FirstOverlap(dirty, c.value, 0);
      forall x, y | Covered(dirty, x, y) ensures Covered(after, x, y) {
        var k :| 0 <= k < |dirty| && Covers(dirty[k], x, y);
        assert Covers(after[k], x, y);
      }
      forall x, y | Covers(rect, x, y) && Covers(screen, x, y) ensures Covered(after, x, y) {
        assert Covers(after[i], x, y);
      }
    }
  }

  ghost predicate Forgets(dirty: seq<Rect>, after: seq<Rect>, x: int, y: int) {
    Covered(dirty, x, y) && !Covered(after, x, y)
  }

  /** When it does overflow, what is left is one rectangle, and a queued pixel is forgotten
      exactly when that rectangle misses it. */
  lemma OverflowForgets(dirty: seq<Rect>, screen: Rect, rect: Rect)
    requires Overflows(dirty, screen, rect)
    ensures var u := Union(dirty[0], Intersect(rect, screen).value);
      && Queue(dirty, screen, rect) == [u]
      && forall x, y :: Forgets(dirty, Queue(dirty, screen, rect), x, y) <==> Covered(dirty, x, y) && !Covers(u, x, y)
  {
    var u := Union(dirty[0], Intersect(rect, screen).value);
    assert [u][0] == u;
    forall x, y ensures Covered([u], x, y) <==> Covers(u, x, y) {
      if Covers(u, x, y) { assert Covers([u][0], x, y); }
    }
  }

  /** One of the queued rectangles sticks out of the one that is kept. */
  predicate SticksOut(dirty: seq<Rect>, u: Rect) {
    exists k :: 0 <= k < |dirty| && dirty[k].w > 0 && dirty[k].h > 0 && !Inside(dirty[k], u)
  }

  /** An overflow loses a queued pixel if and only if some queued rectangle that is not empty
      does not lie inside the union of the first one with the new one. */
  lemma OverflowLoses(dirty: seq<Rect>, screen: Rect, rect: Rect)
    requires Overflows(dirty, screen, rect)
    ensures (exists x, y :: Forgets(dirty, Queue(dirty, screen, rect), x, y)) <==>
      SticksOut(dirty, Union(dirty[0], Intersect(rect, screen).value))
  {
    var u, after := Union(dirty[0], Intersect(rect, screen).value), Queue(dirty, screen, rect);
    OverflowForgets(dirty, screen, rect);
    if SticksOut(dirty, u) {
      var k :| 0 <= k < |dirty| && dirty[k].w > 0 && dirty[k].h > 0 && !Inside(dirty[k], u);
      var d := dirty[k];
      var x := if d.x < u.x then d.x else d.x + d.w - 1;
      var y := if d.y < u.y then d.y else d.y + d.h - 1;
      assert Covers(dirty[k], x, y) && !Covers(u, x, y);
      assert Forgets(dirty, after, x, y);
    }
    forall x, y | Forgets(dirty, after, x, y) ensures SticksOut(dirty, u) {
      var k :| 0 <= k < |dirty| && Covers(dirty[k], x, y);
      assert !Inside(dirty[k], u);
    }
  }

  lemma FullAndApart(dirty: seq<Rect>, screen: Rect, rect: Rect, c: Rect)
    requires |dirty| >= MAX_DIRTY && Intersect(rect, screen) == Some(c)
    requires forall k :: 0 <= k < |dirty| ==> Intersect(dirty[k], c).None?
    ensures Overflows(dirty, screen, rect)
  {
  }

  function Dots(): seq<Rect> {
    seq(32, k => Rect(2 * k, 0, 1, 1))
  }

  /** Such a loss does happen: 32 separate dots in one row, and a dot below the first. */
  lemma OverflowExample(screen: Rect, rect: Rect)
    requires screen == Rect(0, 0, 800, 600) && rect == Rect(0, 2, 1, 1)
    ensures Overflows(Dots(), screen, rect) && Forgets(Dots(), Queue(Dots(), screen, rect), 2, 0)
  {
    var dirty := Dots();
    assert Intersect(rect, screen) == Some(rect);
    assert forall k :: 0 <= k < 32 ==> dirty[k] == Rect(2 * k, 0, 1, 1) && Intersect(dirty[k], rect).None?;
    FullAndApart(dirty, screen, rect, rect);
    OverflowForgets(dirty, screen, rect);
    assert Covers(dirty[1], 2, 0);
  }

  // ---------------------------------------------------------------- the scene

  /** A window; its buffer, if any, holds the body row by row. */
  datatype Win = Win(id: nat, x: int, y: int, w: nat, h: nat, title: int, bg: int, buffer: Option<seq<int>>, owner: nat)

  function Body(win: Win): Rect {
    Rect(win.x, win.y + TITLE_HEIGHT, win.w, win.h - TITLE_HEIGHT)
  }

  function Outer(win: Win): Rect {
    Rect(win.x, win.y, win.w + SHADOW, win.h + SHADOW)
  }

  predicate OnBorder(win: Win, x: int, y: int) {
    || Covers(Rect(win.x, win.y, win.w, 1), x, y)
    || Covers(Rect(win.x, win.y + win.h - 1, win.w, 1), x, y)
    || Covers(Rect(win.x, win.y, 1, win.h), x, y)
    || Covers(Rect(win.x + win.w - 1, win.y, 1, win.h), x, y)
  }

  /** A buffer has a pixel for every point of the body. */
  ghost predicate WinOk(win: Win) {
    win.buffer.Some? ==> forall x, y :: Covers(Body(win), x, y) ==> 0 <= BufferIndex(win, x, y) < |win.buffer.value|
  }

  function BufferIndex(win: Win, x: int, y: int): int {
    (y - (win.y + TITLE_HEIGHT)) * win.w + (x - win.x)
  }

  function BodyColor(win: Win, x: int, y: int): int {
    if win.buffer.Some? && 0 <= BufferIndex(win, x, y) < |win.buffer.value| then win.buffer.value[BufferIndex(win, x, y)]
    else win.bg
  }

  /** What a window shows at a point: border above title above body above shadow. */
  function WinPixel(win: Win, x: int, y: int): Option<int> {
    if OnBorder(win, x, y) then Some(WHITE)
    else if Covers(Rect(win.x, win.y, win.w, TITLE_HEIGHT), x, y) then Some(win.title)
    else if Covers(Body(win), x, y) then Some(BodyColor(win, x, y))
    else if Covers(Rect(win.x + SHADOW, win.y + SHADOW, win.w, win.h), x, y) then Some(SHADOW_COLOR)
    else None
  }

  /** A filled rectangle. */
  datatype Layer = Layer(rect: Rect, color: int)

  /** What filling rectangles one after the other leaves at a point. */
  function Painted(layers: seq<Layer>, x: int, y: int): Option<int>
    decreases |layers|
  {
    if layers == [] then None
    else if Covers(layers[|layers| - 1].rect, x, y) then Some(layers[|layers| - 1].color)
    else Painted(layers[..|layers| - 1], x, y)
  }

  /** The rectangles of a window in the order in which they are drawn: shadow, body, title, and the
      four edges. */
  function WindowLayers(win: Win, bodyColor: int): seq<Layer> {
    [ Layer(Rect(win.x + 5, win.y + 5, win.w, win.h), 0xAA000000),
      Layer(Rect(win.x, win.y + 25, win.w, win.h - 25), bodyColor),
      Layer(Rect(win.x, win.y, win.w, 25), win.title),
      Layer(Rect(win.x, win.y, win.w, 1), 0xFFFFFFFF),
      Layer(Rect(win.x, win.y + win.h - 1, win.w, 1), 0xFFFFFFFF),
      Layer(Rect(win.x, win.y, 1, win.h), 0xFFFFFFFF),
      Layer(Rect(win.x + win.w - 1, win.y, 1, win.h), 0xFFFFFFFF) ]
  }

  /** The pixel of a window is what drawing its rectangles in order leaves there. */
  lemma {:induction false} WindowIsItsLayers(win: Win, x: int, y: int)
    ensures WinPixel(win, x, y) == Painted(WindowLayers(win, BodyColor(win, x, y)), x, y)
  {
    var ls := WindowLayers(win, BodyColor(win, x, y));
    assert ls[..6][..5] == ls[..5] && ls[..5][..4] == ls[..4] && ls[..4][..3] == ls[..3];
    assert ls[..3][..2] == ls[..2] && ls[..2][..1] == ls[..1] && ls[..1][..0] == [];
    assert Painted(ls[..3], x, y) ==
      if Covers(ls[2].rect, x, y) then Some(ls[2].color)
      else if Covers(ls[1].rect, x, y) then Some(ls[1].color)
      else if Covers(ls[0].rect, x, y) then Some(ls[0].color) else None by {
      assert Painted(ls[..1], x, y) == if Covers(ls[0].rect, x, y) then Some(ls[0].color) else None;
      assert Painted(ls[..2], x, y) == if Covers(ls[1].rect, x, y) then Some(ls[1].color) else Painted(ls[..1], x, y);
    }
    assert Painted(ls[..4], x, y) == if Covers(ls[3].rect, x, y) then Some(ls[3].color) else Painted(ls[..3], x, y);
    assert Painted(ls[..5], x, y) == if Covers(ls[4].rect, x, y) then Some(ls[4].color) else Painted(ls[..4], x, y);
    assert Painted(ls[..6], x, y) == if Covers(ls[5].rect, x, y) then Some(ls[5].color) else Painted(ls[..5], x, y);
  }

  /** The body of a window with a buffer shows the buffer row by row, width pixels to a row. */
  lemma BodyShowsRows(win: Win, row: nat, column: nat)
    requires win.buffer.Some? && column < win.w && (row + 1) * win.w <= |win.buffer.value|
    ensures 0 <= row * win.w <= (row + 1) * win.w
    ensures BodyColor(win, win.x + column, win.y + 25 + row) ==
      win.buffer.value[row * win.w..(row + 1) * win.w][column]
  {
    assert BufferIndex(win, win.x + column, win.y + 25 + row) == row * win.w + column;
  }

  /** What is seen at a point of the desktop: the topmost window there, front first. */
  function Top(wins: seq<Win>, x: int, y: int): int
    decreases |wins|
  {
    if wins == [] then DESKTOP_COLOR
    else if WinPixel(wins[0], x, y).Some? then WinPixel(wins[0], x, y).value
    else Top(wins[1..], x, y)
  }

  /** The arrow drawn by graphics_draw_cursor. */
  predicate InCursor(cx: int, cy: int, x: int, y: int) {
    0 <= y - cy < CURSOR_H && 0 <= x - cx < CURSOR_W && x - cx < (y - cy) / 2 + 1
  }

  /** The lengths of the fifteen rows of the arrow. */
  const ARROW: seq<int> := [1, 1, 2, 2, 3, 3, 4, 4, 5, 5, 6, 6, 7, 7, 8]

  lemma ArrowShape(cx: int, cy: int, x: int, y: int)
    ensures InCursor(cx, cy, x, y) <==> 0 <= y - cy < 15 && 0 <= x - cx < ARROW[y - cy]
  {
    if 0 <= y - cy < 15 { assert ARROW[y - cy] == (y - cy) / 2 + 1; }
  }

  function CursorRect(cx: int, cy: int): Rect {
    Rect(cx, cy, CURSOR_W, CURSOR_H)
  }

  function Scene(wins: seq<Win>, cx: int, cy: int, x: int, y: int): int {
    if InCursor(cx, cy, x, y) then WHITE else Top(wins, x, y)
  }

  ghost predicate StaysInside(win: Win) {
    forall x, y :: WinPixel(win, x, y).Some? ==> Covers(Outer(win), x, y)
  }

  /** The rectangle queued for a window covers all it paints exactly when the window is at
      least one pixel wide and twenty high (or paints nothing at all). */
  lemma OuterRectSuffices(win: Win)
    ensures StaysInside(win) <==> (win.w >= 1 && win.h >= 20) || (win.w == 0 && win.h == 0)
  {
    if win.w >= 1 && win.h < 20 {
      assert WinPixel(win, win.x, win.y + TITLE_HEIGHT - 1).Some?;
    }
    if win.w == 0 && win.h >= 1 {
      assert WinPixel(win, win.x - 1, win.y).Some?;
    }
  }

  // ---------------------------------------------------------------- how scenes change

  /** Removing or changing one window changes the scene only where the window shows. */
  lemma {:induction false} TopWithout(wins: seq<Win>, i: nat, x: int, y: int)
    requires i < |wins| && WinPixel(wins[i], x, y).None?
    ensures Top(wins[..i] + wins[i + 1..], x, y) == Top(wins, x, y)
    decreases i
  {
    var rest := wins[..i] + wins[i + 1..];
    if i == 0 {
      assert rest == wins[1..];
    } else {
      assert rest[1..] == wins[1..][..i - 1] + wins[1..][i..];
      TopWithout(wins[1..], i - 1, x, y);
    }
  }

  lemma {:induction false} TopReplaced(wins: seq<Win>, i: nat, win: Win, x: int, y: int)
    requires i < |wins| && WinPixel(win, x, y) == WinPixel(wins[i], x, y)
    ensures Top(wins[i := win], x, y) == Top(wins, x, y)
    decreases i
  {
    if i > 0 {
      assert wins[i := win][1..] == wins[1..][i - 1 := win];
      TopReplaced(wins[1..], i - 1, win, x, y);
    } else {
      assert wins[0 := win][1..] == wins[1..];
    }
  }

  /** Window i moved to the front. */
  function Raised(wins: seq<Win>, i: nat): seq<Win>
    requires i < |wins|
  {
    [wins[i]] + wins[..i] + wins[i + 1..]
  }

  lemma {:induction false} TopRaised(wins: seq<Win>, i: nat, x: int, y: int)
    requires i < |wins| && WinPixel(wins[i], x, y).None?
    ensures Top(Raised(wins, i), x, y) == Top(wins, x, y)
  {
    TopWithout(wins, i, x, y);
    assert Raised(wins, i)[1..] == wins[..i] + wins[i + 1..];
  }
}

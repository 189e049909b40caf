/** The drawing primitives over the backbuffer and the visible framebuffer
    (src/kernel/graphics.c), each proved against the set of pixels it may touch. */
module GraphicsScreen {
  import opened Painting

  class Screen {
    const width: nat
    const height: nat
    const back: array2<int>   // backbuffer, row by row
    const fb: array2<int>     // what the monitor shows

    ghost predicate Valid() {
      && back != fb
      && back.Length0 == height && back.Length1 == width
      && fb.Length0 == height && fb.Length1 == width
    }

    constructor (width: nat, height: nat)
      ensures Valid() && this.width == width && this.height == height && fresh(back) && fresh(fb)
    {
      this.width := width;
      this.height := height;
      back := new int[height, width];
      fb := new int[height, width];
    }

    function Whole(): Rect {
      Rect(0, 0, width, height)
    }

    /** clip_rect: what is left of a rectangle is exactly its part on the screen. */
    method ClipRect(rect: Rect) returns (ok: bool, clipped: Rect)
      ensures ok <==> exists x, y :: Covers(rect, x, y) && Covers(Whole(), x, y)
      ensures ok ==> forall x, y :: Covers(clipped, x, y) <==> Covers(rect, x, y) && Covers(Whole(), x, y)
      ensures ok ==> 0 <= clipped.x && clipped.x + clipped.w <= width && 0 <= clipped.y && clipped.y + clipped.h <= height
      ensures ok ==> clipped.w > 0 && clipped.h > 0
    {
      var x2, y2 := rect.x + rect.w, rect.y + rect.h;
      var x, y := rect.x, rect.y;
      if x < 0 { x := 0; }
      if y < 0 { y := 0; }
      if x2 > width { x2 := width; }
      if y2 > height { y2 := height; }
      clipped := Rect(x, y, x2 - x, y2 - y);
      ok := clipped.w > 0 && clipped.h > 0;
      assert ok ==> Covers(rect, x, y) && Covers(Whole(), x, y);
    }

    /** graphics_put_pixel. */
    method PutPixel(x: int, y: int, color: int)
      requires Valid()
      modifies back
      ensures forall i, j :: 0 <= i < height && 0 <= j < width ==>
        back[i, j] == if i == y && j == x then color else old(back[i, j])
    {
      if x < 0 || y < 0 || x >= width || y >= height { return; }
      back[y, x] := color;
    }

    /** graphics_clear_rect. */
    method ClearRect(rect: Rect, color: int)
      requires Valid()
      modifies back
      ensures forall i, j :: 0 <= i < height && 0 <= j < width ==>
        back[i, j] == if Covers(rect, j, i) then color else old(back[i, j])
    {
      var ok, r := ClipRect(rect);
      if !ok { return; }
      var py := 0;
      while py < r.h
        invariant 0 <= py <= r.h
        invariant forall i, j :: 0 <= i < height && 0 <= j < width ==>
          back[i, j] == if Covers(r, j, i) && i < r.y + py then color else old(back[i, j])
      {
        var px := 0;
        while px < r.w
          invariant 0 <= px <= r.w
          invariant forall i, j :: 0 <= i < height && 0 <= j < width ==>
            back[i, j] ==
              if Covers(r, j, i) && (i < r.y + py || (i == r.y + py && j < r.x + px)) then color else old(back[i, j])
        {
          back[r.y + py, r.x + px] := color;
          px := px + 1;
        }
        py := py + 1;
      }
    }

    /** graphics_draw_rect. */
    method DrawRect(r: Rect, color: int)
      requires Valid()
      modifies back
      ensures forall i, j :: 0 <= i < height && 0 <= j < width ==>
        back[i, j] == if Covers(r, j, i) then color else old(back[i, j])
    {
      var i := 0;
      while i < r.h
        invariant r.h >= 0 ==> 0 <= i <= r.h
        invariant forall y, x :: 0 <= y < height && 0 <= x < width ==>
          back[y, x] == if Covers(r, x, y) && y < r.y + i then color else old(back[y, x])
      {
        var j := 0;
        while j < r.w
          invariant r.w >= 0 ==> 0 <= j <= r.w
          invariant forall y, x :: 0 <= y < height && 0 <= x < width ==>
            back[y, x] ==
              if Covers(r, x, y) && (y < r.y + i || (y == r.y + i && x < r.x + j)) then color else old(back[y, x])
        {
          PutPixel(r.x + j, r.y + i, color);
          j := j + 1;
        }
        i := i + 1;
      }
    }

    /** graphics_draw_cursor: exactly the pixels of the arrow turn white. */
    method DrawCursor(cx: int, cy: int)
      requires Valid()
      modifies back
      ensures forall y, x :: 0 <= y < height && 0 <= x < width ==>
        back[y, x] == if InCursor(cx, cy, x, y) then WHITE else old(back[y, x])
    {
      var i := 0;
      while i < CURSOR_H
        invariant 0 <= i <= CURSOR_H
        invariant forall y, x :: 0 <= y < height && 0 <= x < width ==>
          back[y, x] == if InCursor(cx, cy, x, y) && y < cy + i then WHITE else old(back[y, x])
      {
        var j := 0;
        while j < CURSOR_W
          invariant 0 <= j <= CURSOR_W
          invariant forall y, x :: 0 <= y < height && 0 <= x < width ==>
            back[y, x] ==
              if InCursor(cx, cy, x, y) && (y < cy + i || (y == cy + i && x < cx + j)) then WHITE else old(back[y, x])
        {
          if j < i / 2 + 1 {
            PutPixel(cx + j, cy + i, WHITE);
          }
          j := j + 1;
        }
        i := i + 1;
      }
    }

    /** graphics_swap_rects: exactly the pixels of the rectangles become visible. */
    method SwapRects(rects: seq<Rect>)
      requires Valid()
      modifies fb
      ensures forall i, j :: 0 <= i < height && 0 <= j < width ==>
        fb[i, j] == if Covered(rects, j, i) then back[i, j] else old(fb[i, j])
    {
      var k := 0;
      while k < |rects|
        invariant k <= |rects|
        invariant forall i, j :: 0 <= i < height && 0 <= j < width ==>
          fb[i, j] == if Covered(rects[..k], j, i) then back[i, j] else old(fb[i, j])
      {
        ghost var before := k;
        CopyRect(rects[k]);
        k := k + 1;
        CoveredStep(rects, before);
      }
      assert rects[..k] == rects;
    }

    /** The rows of one rectangle. */
    method CopyRect(rect: Rect)
      requires Valid()
      modifies fb
      ensures forall i, j :: 0 <= i < height && 0 <= j < width ==>
        fb[i, j] == if Covers(rect, j, i) then back[i, j] else old(fb[i, j])
    {
      var ok, r := ClipRect(rect);
      if !ok { return; }
      var row := 0;
      while row < r.h
        invariant 0 <= row <= r.h
        invariant forall i, j :: 0 <= i < height && 0 <= j < width ==>
          fb[i, j] == if Covers(r, j, i) && i < r.y + row then back[i, j] else old(fb[i, j])
      {
        var col := 0;
        while col < r.w
          invariant 0 <= col <= r.w
          invariant forall i, j :: 0 <= i < height && 0 <= j < width ==>
            fb[i, j] ==
              if Covers(r, j, i) && (i < r.y + row || (i == r.y + row && j < r.x + col)) then back[i, j] else old(fb[i, j])
        {
          fb[r.y + row, r.x + col] := back[r.y + row, r.x + col];
          col := col + 1;
        }
        row := row + 1;
      }
    }
  }
}

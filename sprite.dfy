/** `draw_sprite`: copy a row-major sprite of `sh` rows and `sw` columns into
    the buffer with its top-left corner at pixel (py, px), clipped to the
    buffer.  The source runs one work item per sprite row; inside a row it
    `continue`s past columns that fail one bounds test and `break`s at a
    column whose destination falls outside the buffer, so it writes nothing
    past the first such column. */
module Sprite {
  import opened Framebuffer

  lemma MulMonotone(a: nat, b: nat, c: nat)
    requires a <= b
    ensures a * c <= b * c
  {
    assert b * c == a * c + (b - a) * c;
  }

  /** How many of the offsets 0 .. size - 1, shifted by pos, land below limit. */
  function ClipCount(size: nat, pos: nat, limit: nat): (n: nat)
    ensures n <= size
  {
    if pos >= limit then 0 else Min(size, limit - pos)
  }

  /** The offsets that land are exactly a prefix of length ClipCount. */
  lemma ClipCountPrefix(size: nat, pos: nat, limit: nat, j: nat)
    ensures j < ClipCount(size, pos, limit) <==> j < size && pos + j < limit
  {
  }

  /** Every sprite entry draw_sprite reads exists: the last entry read is in
      the last sprite row that lands in the buffer, at the last column that
      lands in it. */
  predicate SpriteCovers(sprite: seq<Pixel>, sh: nat, sw: nat, py: nat, px: nat) {
    var rows, cols := ClipCount(sh, py, HEIGHT), ClipCount(sw, px, WIDTH);
    rows == 0 || cols == 0 || (rows - 1) * sw + cols <= |sprite|
  }

  /** The `usize` products draw_sprite forms for every sprite row,
      `(y + pos_y) * WIDTH` and `y * sprite_size_x`, do not overflow. */
  predicate NoRowOverflow(sh: nat, sw: nat, py: nat) {
    sh == 0 || ((sh - 1 + py) * WIDTH < USIZE_LIMIT && (sh - 1) * sw < USIZE_LIMIT)
  }

  /** Under SpriteCovers, every sprite cell whose destination is in the buffer exists. */
  lemma SpriteIndex(sprite: seq<Pixel>, sh: nat, sw: nat, py: nat, px: nat, y: nat, x: nat)
    requires SpriteCovers(sprite, sh, sw, py, px)
    requires y < sh && x < sw && y + py < HEIGHT && x + px < WIDTH
    ensures y * sw + x < |sprite|
  {
    var rows, cols := ClipCount(sh, py, HEIGHT), ClipCount(sw, px, WIDTH);
    ClipCountPrefix(sh, py, HEIGHT, y);
    ClipCountPrefix(sw, px, WIDTH, x);
    MulMonotone(y, rows - 1, sw);
  }

  /** Dropping sprite rows from the bottom keeps the sprite covering. */
  lemma CoversFewerRows(sprite: seq<Pixel>, sh: nat, n: nat, sw: nat, py: nat, px: nat)
    requires SpriteCovers(sprite, sh, sw, py, px) && n <= sh
    ensures SpriteCovers(sprite, n, sw, py, px)
  {
    var rows, rowsN := ClipCount(sh, py, HEIGHT), ClipCount(n, py, HEIGHT);
    if rowsN > 0 {
      MulMonotone(rowsN - 1, rows - 1, sw);
    }
  }

  /** Whether sprite cell (r - py, k - px) lands on pixel (r, k). */
  predicate InSprite(r: nat, k: nat, sh: nat, sw: nat, py: nat, px: nat) {
    py <= r < py + sh && px <= k < px + sw && r < HEIGHT && k < WIDTH
  }

  function BlitPixel(s: seq<Pixel>, sprite: seq<Pixel>, sh: nat, sw: nat, py: nat, px: nat, i: nat): Pixel
    requires |s| == BUFFER_LEN && i < BUFFER_LEN
    requires SpriteCovers(sprite, sh, sw, py, px)
  {
    if InSprite(Row(i), Col(i), sh, sw, py, px) then
      SpriteIndex(sprite, sh, sw, py, px, Row(i) - py, Col(i) - px);
      sprite[(Row(i) - py) * sw + (Col(i) - px)]
    else
      s[i]
  }

  /** The buffer after draw_sprite, given the buffer before: each pixel that a
      sprite cell lands on takes that cell's colour, one pixel at a time. */
  function Blit(s: seq<Pixel>, sprite: seq<Pixel>, sh: nat, sw: nat, py: nat, px: nat): (t: seq<Pixel>)
    requires |s| == BUFFER_LEN
    requires SpriteCovers(sprite, sh, sw, py, px)
    ensures |t| == BUFFER_LEN
  {
    seq(BUFFER_LEN, i requires 0 <= i < BUFFER_LEN => BlitPixel(s, sprite, sh, sw, py, px, i))
  }

  /** Every sprite cell whose destination is inside the buffer is copied there. */
  lemma BlitCopies(s: seq<Pixel>, sprite: seq<Pixel>, sh: nat, sw: nat, py: nat, px: nat, y: nat, x: nat)
    requires |s| == BUFFER_LEN
    requires SpriteCovers(sprite, sh, sw, py, px)
    requires y < sh && x < sw && y + py < HEIGHT && x + px < WIDTH
    ensures (y + py) * WIDTH + (x + px) < BUFFER_LEN && y * sw + x < |sprite|
    ensures Blit(s, sprite, sh, sw, py, px)[(y + py) * WIDTH + (x + px)] == sprite[y * sw + x]
  {
    Encode(y + py, x + px);
    SpriteIndex(sprite, sh, sw, py, px, y, x);
  }

  /** Every pixel no sprite cell lands on keeps its old value. */
  lemma BlitKeeps(s: seq<Pixel>, sprite: seq<Pixel>, sh: nat, sw: nat, py: nat, px: nat, i: nat)
    requires |s| == BUFFER_LEN
    requires SpriteCovers(sprite, sh, sw, py, px)
    requires i < BUFFER_LEN && !InSprite(Row(i), Col(i), sh, sw, py, px)
    ensures Blit(s, sprite, sh, sw, py, px)[i] == s[i]
  {
  }

  /** A sprite placed with its origin outside the buffer leaves the buffer as it was. */
  lemma BlitOffBuffer(s: seq<Pixel>, sprite: seq<Pixel>, sh: nat, sw: nat, py: nat, px: nat)
    requires |s| == BUFFER_LEN
    requires py >= HEIGHT || px >= WIDTH
    ensures SpriteCovers(sprite, sh, sw, py, px)
    ensures Blit(s, sprite, sh, sw, py, px) == s
  {
  }

  /** Distinct sprite cells whose destinations are in the buffer land on
      distinct pixels, so no two writes of draw_sprite collide. */
  lemma CellsDisjoint(py: nat, px: nat, y1: nat, x1: nat, y2: nat, x2: nat)
    requires y1 + py < HEIGHT && x1 + px < WIDTH
    requires y2 + py < HEIGHT && x2 + px < WIDTH
    requires y1 != y2 || x1 != x2
    ensures (y1 + py) * WIDTH + (x1 + px) != (y2 + py) * WIDTH + (x2 + px)
  {
    Encode(y1 + py, x1 + px);
    Encode(y2 + py, x2 + px);
  }

  /** Whether the work item for sprite row y, after its first `cols` columns,
      has written pixel (r, k). */
  predicate InSpriteRow(r: nat, k: nat, y: nat, cols: nat, py: nat, px: nat) {
    r == y + py && px <= k < px + cols && r < HEIGHT && k < WIDTH
  }

  /** The buffer after the work item for sprite row y has handled its first
      `cols` columns, given the buffer before it. */
  function BlitRow(s: seq<Pixel>, sprite: seq<Pixel>, sw: nat, py: nat, px: nat, y: nat, cols: nat): (t: seq<Pixel>)
    requires |s| == BUFFER_LEN && cols <= sw
    requires SpriteCovers(sprite, y + 1, sw, py, px)
    ensures |t| == BUFFER_LEN
  {
    seq(BUFFER_LEN, i requires 0 <= i < BUFFER_LEN =>
      if InSpriteRow(Row(i), Col(i), y, cols, py, px) then
        SpriteIndex(sprite, y + 1, sw, py, px, y, Col(i) - px);
        sprite[y * sw + (Col(i) - px)]
      else
        s[i])
  }

  /** The work items of two different sprite rows commute: whichever order
      the thread pool runs them in, the buffer ends the same. */
  lemma RowsCommute(s: seq<Pixel>, sprite: seq<Pixel>, sw: nat, py: nat, px: nat, y1: nat, y2: nat)
    requires |s| == BUFFER_LEN && y1 != y2
    requires SpriteCovers(sprite, y1 + 1, sw, py, px) && SpriteCovers(sprite, y2 + 1, sw, py, px)
    ensures BlitRow(BlitRow(s, sprite, sw, py, px, y1, sw), sprite, sw, py, px, y2, sw)
         == BlitRow(BlitRow(s, sprite, sw, py, px, y2, sw), sprite, sw, py, px, y1, sw)
  {
  }

  /** Blitting n + 1 rows is blitting n rows and then running the work item of row n. */
  lemma BlitNextRow(s: seq<Pixel>, sprite: seq<Pixel>, n: nat, sw: nat, py: nat, px: nat)
    requires |s| == BUFFER_LEN
    requires SpriteCovers(sprite, n + 1, sw, py, px)
    ensures SpriteCovers(sprite, n, sw, py, px)
    ensures Blit(s, sprite, n + 1, sw, py, px)
         == BlitRow(Blit(s, sprite, n, sw, py, px), sprite, sw, py, px, n, sw)
  {
    CoversFewerRows(sprite, n + 1, n, sw, py, px);
  }

  /** Once a column of sprite row y lands outside the buffer, so does every
      later one: the rest of the row adds nothing. */
  lemma RowRestClipped(s: seq<Pixel>, sprite: seq<Pixel>, sw: nat, py: nat, px: nat, y: nat, x: nat)
    requires |s| == BUFFER_LEN && x <= sw
    requires SpriteCovers(sprite, y + 1, sw, py, px)
    requires x + px >= WIDTH || y + py >= HEIGHT
    ensures BlitRow(s, sprite, sw, py, px, y, x) == BlitRow(s, sprite, sw, py, px, y, sw)
  {
  }

  /** Whether the source's column loop for sprite row y, started at column
      `from`, writes column x.  With `skipTest` it first `continue`s past a
      column when `y >= HEIGHT || x >= WIDTH`; either way it `break`s at the
      first column whose destination is outside the buffer. */
  predicate ColumnWritten(skipTest: bool, y: nat, sw: nat, py: nat, px: nat, from: nat, x: nat)
    decreases sw - from
  {
    if from >= sw then false
    else if skipTest && (y >= HEIGHT || from >= WIDTH) then ColumnWritten(skipTest, y, sw, py, px, from + 1, x)
    else if from + px >= WIDTH || y + py >= HEIGHT then false
    else from == x || ColumnWritten(skipTest, y, sw, py, px, from + 1, x)
  }

  /** Because columns are visited in increasing order, breaking at the first
      out-of-bounds column writes exactly the columns a per-pixel clip would,
      and the `continue` test never changes which columns are written. */
  lemma {:induction false} BreakIsClipping(skipTest: bool, y: nat, sw: nat, py: nat, px: nat, from: nat, x: nat)
    ensures ColumnWritten(skipTest, y, sw, py, px, from, x)
        <==> from <= x < sw && x + px < WIDTH && y + py < HEIGHT
    decreases sw - from
  {
    if from < sw {
      BreakIsClipping(skipTest, y, sw, py, px, from + 1, x);
    }
  }

  /** draw_sprite, one sprite row after another (the source hands the rows to
      a thread pool that takes one lock per pixel; RowsCommute shows the
      order does not matter). */
  method DrawSprite(buffer: array<Pixel>, sprite: seq<Pixel>, spriteSizeY: nat, spriteSizeX: nat, posY: nat, posX: nat)
    requires buffer.Length == BUFFER_LEN
    requires SpriteCovers(sprite, spriteSizeY, spriteSizeX, posY, posX)
    requires NoRowOverflow(spriteSizeY, spriteSizeX, posY)
    modifies buffer
    ensures buffer[..] == Blit(old(buffer[..]), sprite, spriteSizeY, spriteSizeX, posY, posX)
  {
    forall n: nat | n <= spriteSizeY
      ensures SpriteCovers(sprite, n, spriteSizeX, posY, posX)
    {
      CoversFewerRows(sprite, spriteSizeY, n, spriteSizeX, posY, posX);
    }
    var bufferWidth := WIDTH;
    for y := 0 to spriteSizeY
      invariant buffer[..] == Blit(old(buffer[..]), sprite, y, spriteSizeX, posY, posX)
    {
      MulMonotone(y + posY, spriteSizeY - 1 + posY, WIDTH);
      MulMonotone(y, spriteSizeY - 1, spriteSizeX);
      var bufferRowStart := (y + posY) * bufferWidth;
      var spriteRowStart := y * spriteSizeX;
      assert bufferRowStart < USIZE_LIMIT && spriteRowStart < USIZE_LIMIT;
      ghost var before := buffer[..];
      for x := 0 to spriteSizeX
        invariant buffer[..] == BlitRow(before, sprite, spriteSizeX, posY, posX, y, x)
      {
        if y >= HEIGHT || x >= WIDTH {
          continue;
        }
        if x + posX >= WIDTH || y + posY >= HEIGHT {
          RowRestClipped(before, sprite, spriteSizeX, posY, posX, y, x);
          break;
        }
        Encode(y + posY, x + posX);
        SpriteIndex(sprite, y + 1, spriteSizeX, posY, posX, y, x);
        var bufferIndex := bufferRowStart + (x + posX);
        var spriteIndex := spriteRowStart + x;
        buffer[bufferIndex] := sprite[spriteIndex];
      }
      BlitNextRow(old(buffer[..]), sprite, y, spriteSizeX, posY, posX);
    }
  }
}

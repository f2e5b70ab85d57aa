/** `draw_rectangle`: fill a block of the buffer with one colour, clipped to
    the buffer.  Its `size_y` and `size_x` arguments are exclusive END bounds,
    not sizes, and both loops run SCALE past them, so the block written is
    rows y .. sizeY + SCALE and columns x .. sizeX + SCALE, clipped to the
    buffer. */
module Fill {
  import opened Framebuffer

  /** Whether draw_rectangle(_, y, x, sizeY, sizeX, _) writes pixel (r, k). */
  predicate InRectangle(r: nat, k: nat, y: nat, x: nat, sizeY: nat, sizeX: nat) {
    y <= r < sizeY + SCALE && x <= k < sizeX + SCALE && r < HEIGHT && k < WIDTH
  }

  /** The buffer after draw_rectangle, given the buffer before. */
  function Rectangle(s: seq<Pixel>, y: nat, x: nat, sizeY: nat, sizeX: nat, color: Pixel): (t: seq<Pixel>)
    requires |s| == BUFFER_LEN
    ensures |t| == BUFFER_LEN
  {
    seq(BUFFER_LEN, i requires 0 <= i < BUFFER_LEN =>
      if InRectangle(Row(i), Col(i), y, x, sizeY, sizeX) then color else s[i])
  }

  /** Pixel by pixel: the clipped, widened block holds the colour and every
      other pixel keeps its old value. */
  lemma RectangleAt(s: seq<Pixel>, y: nat, x: nat, sizeY: nat, sizeX: nat, color: Pixel, r: nat, k: nat)
    requires |s| == BUFFER_LEN
    requires r < HEIGHT && k < WIDTH
    ensures Rectangle(s, y, x, sizeY, sizeX, color)[r * WIDTH + k] ==
      if y <= r < Min(sizeY + SCALE, HEIGHT) && x <= k < Min(sizeX + SCALE, WIDTH) then color
      else s[r * WIDTH + k]
  {
    Encode(r, k);
  }

  /** Filling the same block with the same colour twice is the same as filling it once. */
  lemma RectangleIdempotent(s: seq<Pixel>, y: nat, x: nat, sizeY: nat, sizeX: nat, color: Pixel)
    requires |s| == BUFFER_LEN
    ensures Rectangle(Rectangle(s, y, x, sizeY, sizeX, color), y, x, sizeY, sizeX, color)
         == Rectangle(s, y, x, sizeY, sizeX, color)
  {
  }

  /** A block whose origin lies outside the buffer leaves the buffer as it was. */
  lemma RectangleOffBuffer(s: seq<Pixel>, y: nat, x: nat, sizeY: nat, sizeX: nat, color: Pixel)
    requires |s| == BUFFER_LEN
    requires y >= HEIGHT || x >= WIDTH
    ensures Rectangle(s, y, x, sizeY, sizeX, color) == s
  {
  }

  /** The call `draw_rectangle(buffer, 0, 0, HEIGHT, WIDTH, c)` paints every pixel c. */
  lemma RectangleWholeBuffer(s: seq<Pixel>, color: Pixel)
    requires |s| == BUFFER_LEN
    ensures Rectangle(s, 0, 0, HEIGHT, WIDTH, color) == seq(BUFFER_LEN, _ => color)
  {
  }

  /** draw_rectangle, one row after another (the source hands the rows to a
      thread pool that takes one lock for the whole buffer; distinct rows
      write distinct pixels).  A Rust range whose start is past its end is
      empty, hence the `Max` in the loop bounds. */
  method DrawRectangle(buffer: array<Pixel>, y: nat, x: nat, sizeY: nat, sizeX: nat, color: Pixel)
    requires buffer.Length == BUFFER_LEN
    requires sizeY + SCALE < USIZE_LIMIT && sizeX + SCALE < USIZE_LIMIT
    modifies buffer
    ensures buffer[..] == Rectangle(old(buffer[..]), y, x, sizeY, sizeX, color)
  {
    for row := y to Max(y, sizeY + SCALE)
      invariant forall i :: 0 <= i < BUFFER_LEN ==>
        buffer[i] == if InRectangle(Row(i), Col(i), y, x, sizeY, sizeX) && Row(i) < row then color
                     else old(buffer[i])
    {
      for col := x to Max(x, sizeX + SCALE)
        invariant forall i :: 0 <= i < BUFFER_LEN ==>
          buffer[i] == if InRectangle(Row(i), Col(i), y, x, sizeY, sizeX)
                          && (Row(i) < row || (Row(i) == row && Col(i) < col)) then color
                       else old(buffer[i])
      {
        if row >= HEIGHT || col >= WIDTH {
          continue;
        }
        Encode(row, col);
        var index := row * WIDTH + col;
        buffer[index] := color;
      }
    }
  }
}

# The Story of Yicty: pixel buffer and frame loop, in Dafny

This project models the core of a small real-time framebuffer demo written in
Rust (`src/main.rs`). The demo keeps a row-major 240 x 160 buffer of packed
32-bit colours. Every tick it clears the buffer to `0xFF181818` and copies an
8 x 8 test tile with its top-left corner at row 155, column 10. It then shows
the buffer and sleeps out the rest of a 1/24-second frame budget. If the tick
took longer than the budget, it reports an overrun instead.

The files:

- `framebuffer.dfy` (module `Framebuffer`): the constants `WIDTH`, `HEIGHT`
  and `SCALE`, the `Pixel` type (`bv32`, the source's `u32`) and the
  index-to-(row, column) decoding.
- `fill.dfy` (module `Fill`): `draw_rectangle`. `Rectangle` gives the buffer
  after the call. The method `DrawRectangle` runs the source's nested loops
  on an `array` and is proved to produce exactly `Rectangle`.
- `sprite.dfy` (module `Sprite`): `draw_sprite`. `Blit` is the per-pixel
  clipping specification. `BlitRow` is the work item for one sprite row.
  `ColumnWritten` follows the column loop's `continue`/`break` control flow.
  The method `DrawSprite` runs the source's loops, `continue` and `break`
  included, and is proved to produce exactly `Blit`.
- `render.dfy` (module `Render`): `TEST_TILE`, `update` (the method `Update`)
  and `Frame`, the buffer that `update` leaves.
- `frameloop.dfy` (module `FrameLoop`): the frame budget, the
  sleep-or-overrun decision (`Pace`) and `main`'s loop (`Run`).

Behaviour modelled as the code has it:

- `draw_rectangle`'s `size_y`/`size_x` arguments are exclusive end bounds,
  not sizes.
- Both of `draw_rectangle`'s loops run `SCALE` (5) past those end bounds.
  The model keeps this widening. Its only caller, `update`, asks for the
  whole buffer, so the widened block is clipped back to the buffer
  (`Fill.RectangleWholeBuffer`). Whether the widening is intended cannot be
  told from the code, so the model neither drops it nor reports it as a
  defect.
- `draw_sprite` skips a column with `continue` when `y >= HEIGHT || x >= WIDTH`.
  These are sprite coordinates compared with the buffer's size.
- `draw_sprite` writes nothing past the first column of a row whose
  destination is outside the buffer. Usually the `break` ends the row there.
  When the sprite row index `y` itself is at least `HEIGHT`, or the column index is at least `WIDTH`,
  the `continue` test skips that column and every later one instead. The
  `break` test checks only the destination, never the sprite's own bounds.
  `Sprite.BreakIsClipping` proves that this writes exactly the
  columns a per-pixel clip writes, and that the `continue` test never changes
  which columns are written.
- `draw_sprite` takes the lock once per pixel, not once per row.
- The source runs the rows on a thread pool behind one `Mutex`. The model
  runs them in order. `Sprite.CellsDisjoint` and `Sprite.RowsCommute` show
  that distinct cells hit distinct pixels and that row work items commute.

## Model

| member | source | states |
|---|---|---|
| Framebuffer.Encode | src/main.rs:61 | pixel (row, col) of the buffer is at index `row * WIDTH + col`, inside the buffer, and decodes back to (row, col) |
| Fill.RectangleAt | src/main.rs:55-63 | after draw_rectangle, pixel (r, k) holds the colour iff `y <= r < min(size_y + SCALE, HEIGHT)` and `x <= k < min(size_x + SCALE, WIDTH)`; every other pixel keeps its old value |
| Fill.RectangleIdempotent | src/main.rs:52-65 | drawing the same rectangle with the same colour twice leaves the same buffer as drawing it once |
| Fill.RectangleOffBuffer | src/main.rs:58-60 | a rectangle whose origin row is at least HEIGHT or whose origin column is at least WIDTH leaves the buffer unchanged |
| Fill.RectangleWholeBuffer | src/main.rs:27 | `draw_rectangle(buffer, 0, 0, HEIGHT, WIDTH, c)` paints every pixel of the buffer c |
| Fill.DrawRectangle | src/main.rs:52-65 | the row and column loops, skipping out-of-buffer pixels, leave exactly `Rectangle` of the old buffer; writes stay inside the buffer |
| Sprite.SpriteIndex | src/main.rs:73-87 | under the sprite-size precondition, the sprite index `y * sprite_size_x + x` of every cell whose destination is in the buffer is inside the sprite |
| Sprite.BlitCopies | src/main.rs:71-88 | every sprite cell (y, x) with `y + pos_y < HEIGHT` and `x + pos_x < WIDTH` is copied to buffer index `(y + pos_y) * WIDTH + x + pos_x` |
| Sprite.BlitKeeps | src/main.rs:75-81 | every pixel that no sprite cell lands on keeps its old value |
| Sprite.BlitOffBuffer | src/main.rs:79-81 | a sprite placed at a row of at least HEIGHT or a column of at least WIDTH leaves the buffer unchanged |
| Sprite.CellsDisjoint | src/main.rs:72-83 | two distinct sprite cells whose destinations are in the buffer get distinct buffer indices |
| Sprite.RowsCommute | src/main.rs:71-88 | the work items of two different sprite rows commute, so the order the thread pool picks does not change the buffer |
| Sprite.BlitNextRow | src/main.rs:71-88 | blitting the first n + 1 sprite rows is blitting the first n and then running the work item of row n |
| Sprite.RowRestClipped | src/main.rs:79-81 | once a column of a sprite row lands outside the buffer, the rest of the row writes nothing, so breaking there loses nothing |
| Sprite.BreakIsClipping | src/main.rs:75-81 | the column loop, with or without its `continue` test, writes column x iff `x < sprite_size_x`, `x + pos_x < WIDTH` and `y + pos_y < HEIGHT` |
| Sprite.DrawSprite | src/main.rs:67-90 | the row and column loops, with their `continue` and `break`, leave exactly `Blit` of the old buffer; no `usize` product overflows and every read and write is in bounds |
| Render.TileCovers | src/main.rs:14-28 | the 64-entry test tile at (155, 10) meets draw_sprite's preconditions: exactly rows 0 .. 4 land and every read is in the tile |
| Render.FrameAt | src/main.rs:26-29 | after update, pixel (r, k) with `155 <= r` and `10 <= k < 18` is tile entry `(r - 155) * 8 + (k - 10)`, and every other pixel is `0xFF181818` |
| Render.FrameIgnoresPrior | src/main.rs:26-29 | the buffer after update does not depend on the buffer before, so every tick draws the same frame |
| Render.HiddenTileRows | src/main.rs:15-28 | tile rows 5 .. 7 never reach the buffer: any tile agreeing with the test tile on rows 0 .. 4 gives the same frame |
| Render.FrameMarkers | src/main.rs:19-28 | the frame shows the tile's markers at (158, 13), (158, 16) and (159, 14), the tile's base colour `0xFF0000FF` at (159, 13) and background above the tile |
| Render.Update | src/main.rs:26-29 | update leaves exactly `Frame` of the old buffer |
| FrameLoop.Pace | src/main.rs:34-47 | the budget is 1 s / 24 = 41 666 666 ns; the tick sleeps iff `elapsed < budget`, and then for `budget - elapsed`, so work plus sleep is the budget; otherwise it reports an overrun; both report microseconds (budget 41 666) |
| FrameLoop.LoopPacing | src/main.rs:37-48 | counting each tick's timed work, its sleep and its untimed overhead (loop condition, `set_title` or the overrun message, oversleep), a run of n ticks takes at least n budgets, and exactly n budgets iff every tick's timed work fits in the budget and no tick has any overhead |
| FrameLoop.Run | src/main.rs:33-49 | from the zeroed buffer, each tick runs update and the pacing decision; the outcomes are `Pace` of each tick's elapsed time and the buffer is the one frame update draws |

## Left out

- Window creation, event polling, the Escape key, `update_with_buffer` and `set_title` (`minifb`): foreign library calls. The number of ticks before the window closes is an input to `FrameLoop.Run`.
- The panic when `update_with_buffer` or window creation fails: the error comes from minifb, and the source panics on it with `.unwrap()` (src/main.rs:40) and `panic!` (src/main.rs:100). The model does not include either failure.
- `Instant::now`, `elapsed` and `thread::sleep`: OS timing. Each tick's elapsed time is an input in nanoseconds, and the sleep is returned as an outcome rather than performed. The time a tick spends outside the timed interval is a second input to `FrameLoop.LoopTime`. This covers the loop condition, `set_title`, the overrun message, and any sleep longer than requested. The model does not derive that time.
- `Duration`'s seconds-and-nanoseconds representation: durations are whole nanoseconds. For the one division the code performs (one second by 24), the result is the same.
- The text of the title and of the overrun message, including the ANSI colour escapes: display formatting. Only the two numbers they show are modelled.
- rayon's `into_par_iter` and the `Mutex`: rows run in sequence. `Sprite.CellsDisjoint` and `Sprite.RowsCommute` give the reason this loses nothing for `draw_sprite`. For `draw_rectangle`, each row writes only its own pixels.
- Fill.DrawRectangle: arguments are unbounded naturals. The `usize` overflow of `size_y + SCALE` and `size_x + SCALE` is excluded by a precondition, not modelled as a panic or a wrap-around.
- Sprite.DrawSprite: the overflow of `(y + pos_y) * WIDTH` and `y * sprite_size_x` is excluded by a precondition (`NoRowOverflow`). The slice-index panic is also excluded by a precondition (`SpriteCovers`). Neither is modelled as a panic.

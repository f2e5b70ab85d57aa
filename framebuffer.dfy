/** The pixel buffer the drawing routines write into: a row-major
    WIDTH x HEIGHT grid of packed 32-bit colours, where pixel (r, k) (row r,
    column k) lives at index `r * WIDTH + k`. */
module Framebuffer {

  const WIDTH: nat := 240
  const HEIGHT: nat := 160
  /** The window's display scale factor. */
  const SCALE: nat := 5
  /** Length of the buffer: one entry per pixel. */
  const BUFFER_LEN: nat := WIDTH * HEIGHT
  /** One more than the largest `usize` on a 64-bit target. */
  const USIZE_LIMIT: nat := 0x1_0000_0000_0000_0000

  /** A packed 0xAARRGGBB colour, the source's `u32`. */
  type Pixel = bv32

  function Min(a: int, b: int): int { if a < b then a else b }
  function Max(a: int, b: int): int { if a < b then b else a }

  /** The row of buffer index i. */
  function Row(i: nat): nat { i / WIDTH }

  /** The column of buffer index i. */
  function Col(i: nat): nat { i % WIDTH }

  /** Every buffer index decodes to an in-bounds pixel, and re-encodes to itself. */
  lemma Decode(i: nat)
    requires i < BUFFER_LEN
    ensures Row(i) < HEIGHT && Col(i) < WIDTH
    ensures Row(i) * WIDTH + Col(i) == i
  {
  }

  /** An in-bounds pixel (r, k) has an index inside the buffer that decodes back to (r, k). */
  lemma Encode(r: nat, k: nat)
    requires r < HEIGHT && k < WIDTH
    ensures r * WIDTH + k < BUFFER_LEN
    ensures Row(r * WIDTH + k) == r && Col(r * WIDTH + k) == k
  {
  }
}

/** `update`: the frame the loop draws each tick, with the test tile it uses. */
module Render {
  import opened Framebuffer
  import opened Fill
  import opened Sprite

  const TILE_SIZE: nat := 8

  /** The 8 x 8 test sprite, row-major: a square of opaque blue `0xFF0000FF` with a few marker pixels. */
  const TEST_TILE: seq<Pixel> := [
      0xFF_00_00_FF, 0xFF_00_00_FF, 0xFF_00_00_FF, 0xFF_00_00_FF, 0xFF_00_00_FF, 0xFF_00_00_FF, 0xFF_00_00_FF, 0xFF_00_00_FF,
      0xFF_00_00_FF, 0xFF_00_00_FF, 0xFF_00_00_FF, 0xFF_00_00_FF, 0xFF_00_00_FF, 0xFF_00_00_FF, 0xFF_00_00_FF, 0xFF_00_00_FF,
      0xFF_00_00_FF, 0xFF_00_00_FF, 0xFF_00_00_FF, 0xFF_00_00_FF, 0xFF_00_00_FF, 0xFF_00_00_FF, 0xFF_00_00_FF, 0xFF_00_00_FF,
      0xFF_00_00_FF, 0xFF_00_00_FF, 0xFF_00_00_FF, 0xFF_00_FF_FF, 0xFF_00_00_FF, 0xFF_00_00_FF, 0xFF_FF_00_FF, 0xFF_00_00_FF,
      0xFF_00_00_FF, 0xFF_00_00_FF, 0xFF_00_00_FF, 0xFF_00_00_FF, 0xFF_FF_00_FF, 0xFF_00_00_FF, 0xFF_00_00_FF, 0xFF_00_00_FF,
      0xFF_00_00_FF, 0xFF_00_00_FF, 0xFF_00_00_FF, 0xFF_00_00_FF, 0xFF_00_00_FF, 0xFF_00_00_FF, 0xFF_00_00_FF, 0xFF_00_00_FF,
      0xFF_00_00_FF, 0xFF_00_00_FF, 0xFF_00_00_FF, 0xFF_00_00_FF, 0xFF_00_00_FF, 0xFF_00_00_FF, 0xFF_00_00_FF, 0xFF_00_00_FF,
      0xFF_00_00_FF, 0xFF_00_00_FF, 0xFF_00_00_FF, 0xFF_00_00_FF, 0xFF_FF_00_FF, 0xFF_00_00_FF, 0xFF_00_00_FF, 0xFF_00_00_FF
  ]

  /** The colour update clears the buffer to. */
  const BACKGROUND: Pixel := 0xFF18_18_18
  /** Where update places the test tile's top-left corner. */
  const TILE_ROW: nat := 155
  const TILE_COL: nat := 10

  /** Exactly rows 0 .. 4 of the tile land in the buffer, and every tile entry
      update reads exists. */
  lemma TileCovers()
    ensures |TEST_TILE| == TILE_SIZE * TILE_SIZE
    ensures ClipCount(TILE_SIZE, TILE_ROW, HEIGHT) == 5
    ensures SpriteCovers(TEST_TILE, TILE_SIZE, TILE_SIZE, TILE_ROW, TILE_COL)
    ensures NoRowOverflow(TILE_SIZE, TILE_SIZE, TILE_ROW)
  {
  }

  /** The buffer after one call of update, given the buffer before. */
  function Frame(s: seq<Pixel>): (t: seq<Pixel>)
    requires |s| == BUFFER_LEN
    ensures |t| == BUFFER_LEN
  {
    TileCovers();
    Blit(Rectangle(s, 0, 0, HEIGHT, WIDTH, BACKGROUND), TEST_TILE, TILE_SIZE, TILE_SIZE, TILE_ROW, TILE_COL)
  }

  /** Pixel by pixel: rows 155 .. 159, columns 10 .. 17 show the top five
      rows of the test tile and every other pixel is the background. */
  lemma FrameAt(s: seq<Pixel>, r: nat, k: nat)
    requires |s| == BUFFER_LEN
    requires r < HEIGHT && k < WIDTH
    ensures Frame(s)[r * WIDTH + k] ==
      if TILE_ROW <= r && TILE_COL <= k < TILE_COL + TILE_SIZE
      then TEST_TILE[(r - TILE_ROW) * TILE_SIZE + (k - TILE_COL)]
      else BACKGROUND
  {
    Encode(r, k);
    TileCovers();
    RectangleWholeBuffer(s, BACKGROUND);
  }

  /** The frame does not depend on what the buffer held before, so every tick
      draws the same frame. */
  lemma FrameIgnoresPrior(s1: seq<Pixel>, s2: seq<Pixel>)
    requires |s1| == BUFFER_LEN && |s2| == BUFFER_LEN
    ensures Frame(s1) == Frame(s2)
  {
    RectangleWholeBuffer(s1, BACKGROUND);
    RectangleWholeBuffer(s2, BACKGROUND);
  }

  /** Tile rows 5 .. 7 fall below the buffer: any tile that agrees with the
      test tile on rows 0 .. 4 draws the same frame. */
  lemma HiddenTileRows(s: seq<Pixel>, tile: seq<Pixel>)
    requires |s| == BUFFER_LEN
    requires |tile| == TILE_SIZE * TILE_SIZE
    requires tile[..5 * TILE_SIZE] == TEST_TILE[..5 * TILE_SIZE]
    ensures SpriteCovers(tile, TILE_SIZE, TILE_SIZE, TILE_ROW, TILE_COL)
    ensures Blit(Rectangle(s, 0, 0, HEIGHT, WIDTH, BACKGROUND), tile, TILE_SIZE, TILE_SIZE, TILE_ROW, TILE_COL)
         == Frame(s)
  {
    var cleared := Rectangle(s, 0, 0, HEIGHT, WIDTH, BACKGROUND);
    forall i | 0 <= i < BUFFER_LEN
      ensures BlitPixel(cleared, tile, TILE_SIZE, TILE_SIZE, TILE_ROW, TILE_COL, i)
           == BlitPixel(cleared, TEST_TILE, TILE_SIZE, TILE_SIZE, TILE_ROW, TILE_COL, i)
    {
      Decode(i);
      if InSprite(Row(i), Col(i), TILE_SIZE, TILE_SIZE, TILE_ROW, TILE_COL) {
        var j := (Row(i) - TILE_ROW) * TILE_SIZE + (Col(i) - TILE_COL);
        assert j < 5 * TILE_SIZE;
        assert tile[j] == tile[..5 * TILE_SIZE][j];
      }
    }
  }

  /** Three of the tile's four marker pixels land in the frame (its fourth is
      in the hidden row 7); the tile's base colour `0xFF0000FF` fills the rest of its block. */
  lemma FrameMarkers(s: seq<Pixel>)
    requires |s| == BUFFER_LEN
    ensures Frame(s)[158 * WIDTH + 13] == 0xFF_00_FF_FF
    ensures Frame(s)[158 * WIDTH + 16] == 0xFF_FF_00_FF
    ensures Frame(s)[159 * WIDTH + 14] == 0xFF_FF_00_FF
    ensures Frame(s)[159 * WIDTH + 13] == 0xFF_00_00_FF
    ensures Frame(s)[154 * WIDTH + 14] == BACKGROUND
  {
    FrameAt(s, 158, 13);
    FrameAt(s, 158, 16);
    FrameAt(s, 159, 14);
    FrameAt(s, 159, 13);
    FrameAt(s, 154, 14);
  }

  /** update: clear the buffer to the background, then draw the test tile. */
  method Update(buffer: array<Pixel>)
    requires buffer.Length == BUFFER_LEN
    modifies buffer
    ensures buffer[..] == Frame(old(buffer[..]))
  {
    DrawRectangle(buffer, 0, 0, HEIGHT, WIDTH, BACKGROUND);
    TileCovers();
    DrawSprite(buffer, TEST_TILE, TILE_SIZE, TILE_SIZE, TILE_ROW, TILE_COL);
  }
}

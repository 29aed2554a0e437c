/** The part of the host engine's Texture2D that DynamicTexture relies on: a
    fixed-size array of colours in bottom-left row-major order, read and
    written one pixel, one block or all at once. Upload to the GPU (Apply),
    wrap and filter modes are not modelled. */
module UnityTexture {
  import opened PixelGrid

  class Texture2D {
    const width: nat
    const height: nat
    /** Storage: pixel (col, row) is data[row * width + col]. */
    const data: array<Color>

    /** The object-level form of Grid.Valid: it reads no heap (the fields are
        constants), and Contents needs it before a Grid can be built. */
    ghost predicate Valid() {
      width > 0 && height > 0 && data.Length == width * height
    }

    /** The pixels as a buffer value. */
    function Contents(): (g: Grid)
      reads data
      requires Valid()
      ensures g.Valid() && g.width == width && g.height == height
    {
      Grid(width, height, data[..])
    }

    /** A new texture of the given size; its initial colours are the engine's
        business, so nothing is promised about them. */
    constructor (w: nat, h: nat)
      requires w > 0 && h > 0
      ensures Valid() && width == w && height == h && fresh(data)
    {
      width, height := w, h;
      data := new Color[w * h];
    }

    /** Texture2D.GetPixel on an in-range position. */
    method GetPixel(col: int, row: int) returns (c: Color)
      requires Valid() && 0 <= col < width && 0 <= row < height
      ensures c == Contents().At(col, row)
    {
      IndexInRange(width, height, col, row);
      c := data[row * width + col];
    }

    /** Texture2D.SetPixel on an in-range position. */
    method SetPixel(col: int, row: int, c: Color)
      requires Valid() && 0 <= col < width && 0 <= row < height
      modifies data
      ensures Contents() == Put(old(Contents()), col, row, c)
    {
      IndexInRange(width, height, col, row);
      data[row * width + col] := c;
    }

    /** Texture2D.GetPixels: a fresh copy of the whole storage. */
    method GetPixels() returns (a: array<Color>)
      requires Valid()
      ensures fresh(a) && a[..] == data[..]
    {
      a := new Color[data.Length](i requires 0 <= i < data.Length reads data => data[i]);
    }

    /** Texture2D.SetPixels(colors): replaces the whole storage. */
    method SetPixels(colors: array<Color>)
      requires Valid() && colors.Length == data.Length
      modifies data
      ensures data[..] == old(colors[..])
    {
      forall i | 0 <= i < data.Length {
        data[i] := colors[i];
      }
    }

    /** Texture2D.SetPixels(x, y, blockWidth, blockHeight, colors) for a block
        that lies inside the texture: storage pixel (x + i, y + j) becomes
        colors[j * blockWidth + i]. */
    method SetPixelsRegion(x: int, y: int, blockWidth: nat, blockHeight: nat, colors: array<Color>)
      requires Valid()
      requires Grid(blockWidth, blockHeight, colors[..]).Valid()
      requires Fits(Contents(), Grid(blockWidth, blockHeight, colors[..]), x, y)
      modifies data
      ensures Contents() == Blit(old(Contents()), Grid(blockWidth, blockHeight, old(colors[..])), x, y)
    {
      var src := Grid(blockWidth, blockHeight, colors[..]);
      ghost var before := Contents();
      ghost var after := Blit(before, src, x, y);
      var k := 0;
      while k < data.Length
        invariant 0 <= k <= data.Length
        invariant forall m | 0 <= m < k :: data[m] == after.cells[m]
        invariant forall m | k <= m < data.Length :: data[m] == before.cells[m]
      {
        var col, row := k % width, k / width;
        if x <= col < x + blockWidth && y <= row < y + blockHeight {
          data[k] := src.At(col - x, row - y);
        }
        k := k + 1;
      }
      assert data[..] == after.cells;
    }
  }
}

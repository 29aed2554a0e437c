/** The DynamicTexture component: owns at most one host texture and edits its
    pixels in place. Public pixel accessors take top-left coordinates and flip
    them into the texture's bottom-left storage rows. Calls on an uninitialised
    component either do nothing, or, where the component dereferences the
    texture without checking, are excluded by a precondition. */
module Components {
  import opened PixelGrid
  import opened UnityTexture

  /** A fresh array of `n` pixels, all `color`: the loop the component runs in
      InitializeTexture, Clear and FillTexture before SetPixels. */
  method UniformPixels(n: nat, color: Color) returns (pixels: array<Color>)
    ensures fresh(pixels) && pixels[..] == Uniform(n, color)
  {
    pixels := new Color[n];
    for i := 0 to pixels.Length
      invariant forall j | 0 <= j < i :: pixels[j] == color
    {
      pixels[i] := color;
    }
    assert pixels[..] == Uniform(n, color);
  }

  /** What the pixel at storage (col, row) should hold while FillRectangle's
      nested loops run over `start`: rows 0 .. rows-1 of the rectangle and the
      first `cols` cells of row `rows` have been painted `c`. */
  ghost function Progress(start: Grid, sx: int, sy: int, w: int, rows: int, cols: int, c: Color,
                    col: int, row: int): (r: Color)
    requires start.Valid() && start.InBounds(col, row)
  {
    var y := ToStorageY(row, start.height);
    if InRect(sx, sy, w, rows, col, y) || (y == sy + rows && sx <= col < sx + cols) then c
    else start.At(col, row)
  }

  /** The buffer `now` agrees with Progress everywhere. */
  ghost predicate Painted(start: Grid, now: Grid, sx: int, sy: int, w: int, rows: int, cols: int, c: Color)
  {
    start.Valid() && now.Valid() && now.width == start.width && now.height == start.height &&
    forall col, row | start.InBounds(col, row) ::
      now.At(col, row) == Progress(start, sx, sy, w, rows, cols, c, col, row)
  }

  /** One step of the inner loop when the cell (sx + cols, sy + rows) is on
      the grid: it is painted. */
  lemma PaintedPut(start: Grid, before: Grid, sx: int, sy: int, w: int, rows: int, cols: int, c: Color)
    requires Painted(start, before, sx, sy, w, rows, cols, c)
    requires OnGrid(before, sx + cols, sy + rows) && 0 <= cols
    ensures Painted(start, Put(before, sx + cols, ToStorageY(sy + rows, before.height), c),
                    sx, sy, w, rows, cols + 1, c)
  {
    var r := ToStorageY(sy + rows, before.height);
    var after := Put(before, sx + cols, r, c);
    forall col, row | start.InBounds(col, row)
      ensures after.At(col, row) == Progress(start, sx, sy, w, rows, cols + 1, c, col, row)
    {
      PutAt(before, sx + cols, r, c, col, row);
      assert before.At(col, row) == Progress(start, sx, sy, w, rows, cols, c, col, row);
      if col == sx + cols && row == r {
        assert ToStorageY(row, start.height) == sy + rows;
      }
    }
  }

  /** One step of the inner loop when the cell (sx + cols, sy + rows) is off
      the grid: it is skipped, and nothing on the grid was due there. */
  lemma PaintedSkip(start: Grid, now: Grid, sx: int, sy: int, w: int, rows: int, cols: int, c: Color)
    requires Painted(start, now, sx, sy, w, rows, cols, c)
    requires !OnGrid(now, sx + cols, sy + rows)
    ensures Painted(start, now, sx, sy, w, rows, cols + 1, c)
  {
  }

  /** The inner loop has run to the end of the row. */
  lemma PaintedNextRow(start: Grid, now: Grid, sx: int, sy: int, w: int, rows: int, cols: int, c: Color)
    requires Painted(start, now, sx, sy, w, rows, cols, c)
    requires rows >= 0 && cols == if w > 0 then w else 0
    ensures Painted(start, now, sx, sy, w, rows + 1, 0, c)
  {
  }

  /** The outer loop has run to the end: the buffer is the reference FillRect. */
  lemma PaintedAll(start: Grid, now: Grid, sx: int, sy: int, w: int, h: int, rows: int, c: Color)
    requires Painted(start, now, sx, sy, w, rows, 0, c)
    requires rows == if h > 0 then h else 0
    ensures now == FillRect(start, sx, sy, w, h, c)
  {
    var expected := FillRect(start, sx, sy, w, h, c);
    forall col, row | start.InBounds(col, row)
      ensures now.At(col, row) == expected.At(col, row)
    {
      var y := ToStorageY(row, start.height);
      assert InRect(sx, sy, w, rows, col, y) <==> InRect(sx, sy, w, h, col, y);
      assert now.At(col, row) == Progress(start, sx, sy, w, rows, 0, c, col, row);
      FillRectAt(start, sx, sy, w, h, c, col, row);
    }
    GridExtensionality(now, expected);
  }

  class DynamicTexture {
    /** The texture, or null before InitializeTexture. */
    var texture: Texture2D?

    ghost predicate Valid()
      reads this
    {
      texture != null ==> texture.Valid()
    }

    /** A component as the engine attaches it: no texture yet. */
    constructor ()
      ensures Valid() && texture == null
    {
      texture := null;
    }

    /** Width of the texture: the length of one stored row. */
    function Width(): (r: nat)
      reads this
      requires Valid() && texture != null
      ensures r > 0 && r * Height() == texture.data.Length
    {
      texture.width
    }

    /** Height of the texture: the number of stored rows. */
    function Height(): (r: nat)
      reads this
      requires Valid() && texture != null
      ensures r > 0 && texture.width * r == texture.data.Length
    {
      texture.height
    }

    /** Allocates a w-by-h texture and paints it black. */
    method InitializeTexture(w: int, h: int)
      requires w > 0 && h > 0
      modifies this
      ensures Valid() && texture != null && fresh(texture) && fresh(texture.data)
      ensures Width() == w && Height() == h && texture.data.Length == w * h
      ensures texture.Contents() == Filled(w, h, Black)
    {
      texture := new Texture2D(w, h);
      var pixels := UniformPixels(w * h, Black);
      texture.SetPixels(pixels);
    }

    /** Clear(): the same as ClearTo(Black). */
    method Clear()
      requires Valid() && texture != null
      modifies texture.data
      ensures texture.Contents() == Filled(texture.width, texture.height, Black)
    {
      ClearTo(Black);
    }

    /** Clear(color): paints every pixel `color`. */
    method ClearTo(color: Color)
      requires Valid() && texture != null
      modifies texture.data
      ensures texture.Contents() == Filled(texture.width, texture.height, color)
    {
      var pixels := UniformPixels(texture.width * texture.height, color);
      texture.SetPixels(pixels);
    }

    /** Paints every pixel `color`; does nothing without a texture. */
    method FillTexture(color: Color)
      requires Valid()
      modifies if texture != null then {texture.data} else {}
      ensures texture != null ==> texture.Contents() == Filled(texture.width, texture.height, color)
    {
      if texture == null {
        return;
      }
      var pixels := UniformPixels(texture.width * texture.height, color);
      texture.SetPixels(pixels);
    }

    /** Whole-texture copy: when the source has the same size, the texture
        becomes a copy of it; otherwise nothing changes. */
    method CopyFrom(source: Texture2D)
      requires Valid() && texture != null && source.Valid()
      modifies texture.data
      ensures source.width == texture.width && source.height == texture.height ==>
                texture.Contents() == old(source.Contents())
      ensures source.width != texture.width || source.height != texture.height ==>
                texture.Contents() == old(texture.Contents())
    {
      if source.width != texture.width || source.height != texture.height {
        return;
      }
      var sourcePixels := source.GetPixels();
      texture.SetPixels(sourcePixels);
    }

    /** Block copy with the source's bottom-left corner at storage position
        (x, y), without a y flip. A position outside the texture changes
        nothing; a block that would overrun the texture is excluded. */
    method CopyFromAt(source: Texture2D, x: int, y: int)
      requires Valid() && texture != null && source.Valid()
      requires 0 <= x < texture.width && 0 <= y < texture.height ==>
                 x + source.width <= texture.width && y + source.height <= texture.height
      modifies texture.data
      ensures 0 <= x < texture.width && 0 <= y < texture.height ==>
                Fits(old(texture.Contents()), old(source.Contents()), x, y) &&
                texture.Contents() == Blit(old(texture.Contents()), old(source.Contents()), x, y)
      ensures !(0 <= x < texture.width && 0 <= y < texture.height) ==>
                texture.Contents() == old(texture.Contents())
    {
      if x < 0 || y < 0 || x >= texture.width || y >= texture.height {
        return;
      }
      var sourcePixels := source.GetPixels();
      texture.SetPixelsRegion(x, y, source.width, source.height, sourcePixels);
    }

    /** Writes one pixel at top-left position (x, y); does nothing without a
        texture or off the grid. */
    method SetPixel(x: int, y: int, color: Color)
      requires Valid()
      modifies if texture != null then {texture.data} else {}
      ensures texture != null ==> texture.Contents() == Set(old(texture.Contents()), x, y, color)
    {
      if texture == null {
        return;
      }
      var unityY := ToStorageY(y, texture.height);
      if x < 0 || x >= texture.width || unityY < 0 || unityY >= texture.height {
        return;
      }
      texture.SetPixel(x, unityY, color);
    }

    /** Reads one pixel at top-left position (x, y); Clear without a texture or
        off the grid. */
    method GetPixel(x: int, y: int) returns (c: Color)
      requires Valid()
      ensures texture == null ==> c == Color.Clear
      ensures texture != null ==> c == Get(texture.Contents(), x, y)
    {
      if texture == null {
        return Color.Clear;
      }
      var unityY := ToStorageY(y, texture.height);
      if x < 0 || x >= texture.width || unityY < 0 || unityY >= texture.height {
        return Color.Clear;
      }
      c := texture.GetPixel(x, unityY);
    }

    /** Paints the top-left rectangle [startX, startX + width) x
        [startY, startY + height) `color`, skipping the cells that fall off
        the texture; does nothing without a texture. */
    method FillRectangle(startX: int, startY: int, width: int, height: int, color: Color)
      requires Valid()
      modifies if texture != null then {texture.data} else {}
      ensures texture != null ==>
                texture.Contents() == FillRect(old(texture.Contents()), startX, startY, width, height, color)
    {
      if texture == null {
        return;
      }
      ghost var before := texture.Contents();
      var y := 0;
      while y < height
        invariant 0 <= y <= if height > 0 then height else 0
        invariant Painted(before, texture.Contents(), startX, startY, width, y, 0, color)
      {
        var x := 0;
        while x < width
          invariant 0 <= x <= if width > 0 then width else 0
          invariant Painted(before, texture.Contents(), startX, startY, width, y, x, color)
        {
          var unityY := ToStorageY(startY + y, texture.height);
          // Cells off the texture are skipped.
          if startX + x < 0 || startX + x >= texture.width || unityY < 0 || unityY >= texture.height {
            PaintedSkip(before, texture.Contents(), startX, startY, width, y, x, color);
          } else {
            PaintedPut(before, texture.Contents(), startX, startY, width, y, x, color);
            texture.SetPixel(startX + x, unityY, color);
          }
          x := x + 1;
        }
        PaintedNextRow(before, texture.Contents(), startX, startY, width, y, x, color);
        y := y + 1;
      }
      PaintedAll(before, texture.Contents(), startX, startY, width, height, y, color);
    }
  }
}

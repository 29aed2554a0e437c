/** The pixel buffer of a dynamic texture as a value: a width-by-height grid of
    colours stored row by row from the bottom-left corner, the layout of a
    Unity Texture2D. Storage coordinates (col, row) have their origin at the
    bottom left; the component's callers use top-left coordinates (x, y), and
    ToStorageY converts between the two. The functions here are the reference
    definitions that the texture methods are proved against. */
module PixelGrid {

  /** A colour. The model never looks at colour channels: it only tells colours
      apart and names the two constants the component uses, opaque black and
      fully transparent "clear". Every other RGBA value is an `Other` with an
      opaque code. A colour here is the value the texture stores, after its
      channels are rounded to 8 bits. */
  datatype Color = Black | Clear | Other(code: int)

  /** Position in storage of the pixel at column `col`, row `row` of a buffer
      that is `w` pixels wide. */
  function Index(w: int, col: int, row: int): (k: int) {
    row * w + col
  }

  lemma MulLeftMono(a: int, b: int, w: int)
    requires a <= b && 0 <= w
    ensures a * w <= b * w
  {
  }

  /** Every in-bounds cell has a storage position inside the w*h buffer. */
  lemma IndexInRange(w: int, h: int, col: int, row: int)
    requires 0 <= col < w && 0 <= row < h
    ensures 0 <= Index(w, col, row) < w * h
  {
    MulLeftMono(0, row, w);
    MulLeftMono(row + 1, h, w);
  }

  /** The storage position determines the cell: column and row come back as
      remainder and quotient by the width. */
  lemma IndexDecompose(w: int, col: int, row: int)
    requires 0 <= col < w && 0 <= row
    ensures Index(w, col, row) % w == col && Index(w, col, row) / w == row
  {
    var k := Index(w, col, row);
    var q, r := k / w, k % w;
    assert k == q * w + r;
    assert (q - row) * w == col - r;
    if q > row {
      MulLeftMono(1, q - row, w);
    } else if q < row {
      MulLeftMono(q - row, -1, w);
    }
  }

  /** Every storage position of a w*h buffer is the position of exactly the
      cell (k % w, k / w), which is in bounds. */
  lemma CellOfIndex(w: nat, h: nat, k: int)
    requires 0 <= k < w * h
    ensures w > 0 && 0 <= k % w < w && 0 <= k / w < h
    ensures Index(w, k % w, k / w) == k
  {
  }

  /** The flip from top-left y to bottom-left storage row used by both
      GetPixel and SetPixel. */
  function ToStorageY(y: int, height: int): (r: int)
    ensures 0 <= y < height <==> 0 <= r < height
  {
    height - 1 - y
  }

  /** The flip is its own inverse. */
  lemma StorageYInvolution(y: int, height: int)
    ensures ToStorageY(ToStorageY(y, height), height) == y
  {
  }

  /** A pixel buffer: `cells` holds `width * height` colours, row 0 (the bottom
      row) first. */
  datatype Grid = Grid(width: nat, height: nat, cells: seq<Color>) {

    /** A texture always has at least one pixel in each direction and exactly
        width * height of them in storage. */
    predicate Valid() {
      width > 0 && height > 0 && |cells| == width * height
    }

    /** (col, row) lies inside the buffer, in storage coordinates. */
    predicate InBounds(col: int, row: int) {
      0 <= col < width && 0 <= row < height
    }

    /** The colour at column `col`, storage row `row`. */
    function At(col: int, row: int): (r: Color)
      requires Valid() && InBounds(col, row)
    {
      IndexInRange(width, height, col, row);
      cells[Index(width, col, row)]
    }
  }

  /** Two buffers of the same size that agree on every cell are equal. */
  lemma GridExtensionality(a: Grid, b: Grid)
    requires a.Valid() && b.Valid()
    requires a.width == b.width && a.height == b.height
    requires forall col, row | a.InBounds(col, row) :: a.At(col, row) == b.At(col, row)
    ensures a == b
  {
    forall k | 0 <= k < |a.cells|
      ensures a.cells[k] == b.cells[k]
    {
      CellOfIndex(a.width, a.height, k);
      assert a.At(k % a.width, k / a.width) == b.At(k % a.width, k / a.width);
    }
  }

  /** `n` copies of colour `c`: the pixel array the component builds before
      handing it to the texture. */
  function Uniform(n: nat, c: Color): (s: seq<Color>)
    ensures |s| == n
  {
    seq(n, _ => c)
  }

  /** A w-by-h buffer in which every pixel is `c`. */
  function Filled(w: nat, h: nat, c: Color): (g: Grid)
    requires w > 0 && h > 0
    ensures g.Valid() && g.width == w && g.height == h
  {
    Grid(w, h, Uniform(w * h, c))
  }

  /** Every cell of Filled(w, h, c) is c. */
  lemma FilledAt(w: nat, h: nat, c: Color, col: int, row: int)
    requires w > 0 && h > 0 && 0 <= col < w && 0 <= row < h
    ensures Filled(w, h, c).At(col, row) == c
  {
    IndexInRange(w, h, col, row);
  }

  // ---------------------------------------------------------------------------
  // Single pixels

  /** Storage-coordinate write of one in-bounds pixel (the host texture's
      SetPixel). */
  function Put(g: Grid, col: int, row: int, c: Color): (r: Grid)
    requires g.Valid() && g.InBounds(col, row)
    ensures r.Valid() && r.width == g.width && r.height == g.height
  {
    IndexInRange(g.width, g.height, col, row);
    Grid(g.width, g.height, g.cells[Index(g.width, col, row) := c])
  }

  /** Put changes the one cell it names and no other. */
  lemma PutAt(g: Grid, col: int, row: int, c: Color, i: int, j: int)
    requires g.Valid() && g.InBounds(col, row) && g.InBounds(i, j)
    ensures Put(g, col, row, c).At(i, j) == if i == col && j == row then c else g.At(i, j)
  {
    IndexInRange(g.width, g.height, col, row);
    IndexInRange(g.width, g.height, i, j);
    if i != col || j != row {
      IndexDecompose(g.width, col, row);
      IndexDecompose(g.width, i, j);
    }
  }

  /** (x, y) lies inside the buffer, in top-left coordinates. The flip maps
      rows onto rows, so this is the same range test as InBounds. */
  predicate OnGrid(g: Grid, x: int, y: int) {
    g.InBounds(x, y)
  }

  /** The component's GetPixel on an initialised texture: flip y, then read the
      pixel, or answer Clear when the flipped position is out of range. */
  function Get(g: Grid, x: int, y: int): (c: Color)
    requires g.Valid()
  {
    var row := ToStorageY(y, g.height);
    if x < 0 || x >= g.width || row < 0 || row >= g.height then Clear
    else g.At(x, row)
  }

  /** The component's SetPixel on an initialised texture: flip y, then write the
      pixel, or leave the buffer as it is when the flipped position is out of
      range. */
  function Set(g: Grid, x: int, y: int, c: Color): (r: Grid)
    requires g.Valid()
  {
    var row := ToStorageY(y, g.height);
    if x < 0 || x >= g.width || row < 0 || row >= g.height then g
    else Put(g, x, row, c)
  }

  /** Reading answers Clear exactly off the grid, whichever side is crossed,
      and otherwise reads storage row height-1-y. */
  lemma GetCases(g: Grid, x: int, y: int)
    requires g.Valid()
    ensures !OnGrid(g, x, y) ==> Get(g, x, y) == Clear
    ensures OnGrid(g, x, y) ==> Get(g, x, y) == g.At(x, g.height - 1 - y)
  {
  }

  /** Reading a filled buffer through GetPixel gives the fill colour at every
      position on the grid. */
  lemma GetFilled(w: nat, h: nat, c: Color, x: int, y: int)
    requires w > 0 && h > 0 && 0 <= x < w && 0 <= y < h
    ensures Get(Filled(w, h, c), x, y) == c
  {
    FilledAt(w, h, c, x, h - 1 - y);
  }

  /** SetPixel then GetPixel: reading back the pixel just written gives the
      colour written; every other pixel reads as before; off the grid the write
      changes nothing at all. */
  lemma GetAfterSet(g: Grid, x: int, y: int, c: Color, x2: int, y2: int)
    requires g.Valid()
    ensures Set(g, x, y, c).Valid()
    ensures Set(g, x, y, c).width == g.width && Set(g, x, y, c).height == g.height
    ensures Get(Set(g, x, y, c), x2, y2) ==
            if x2 == x && y2 == y && OnGrid(g, x, y) then c else Get(g, x2, y2)
    ensures !OnGrid(g, x, y) ==> Set(g, x, y, c) == g
  {
    if OnGrid(g, x, y) && OnGrid(g, x2, y2) {
      PutAt(g, x, g.height - 1 - y, c, x2, g.height - 1 - y2);
    }
  }

  // ---------------------------------------------------------------------------
  // Rectangles

  /** (x, y) lies in the rectangle [sx, sx + w) x [sy, sy + h), top-left
      coordinates. Empty when w <= 0 or h <= 0. */
  predicate InRect(sx: int, sy: int, w: int, h: int, x: int, y: int) {
    sx <= x < sx + w && sy <= y < sy + h
  }

  /** Reference definition of FillRectangle: every stored pixel whose top-left
      position lies in the rectangle becomes `c`; the rest keep their colour. */
  function FillRect(g: Grid, sx: int, sy: int, w: int, h: int, c: Color): (r: Grid)
    requires g.Valid()
    ensures r.Valid() && r.width == g.width && r.height == g.height
  {
    Grid(g.width, g.height,
      seq(|g.cells|, k requires 0 <= k < |g.cells| =>
        if InRect(sx, sy, w, h, k % g.width, ToStorageY(k / g.width, g.height)) then c
        else g.cells[k]))
  }

  /** FillRect, cell by cell in storage coordinates. */
  lemma FillRectAt(g: Grid, sx: int, sy: int, w: int, h: int, c: Color, col: int, row: int)
    requires g.Valid() && g.InBounds(col, row)
    ensures FillRect(g, sx, sy, w, h, c).At(col, row) ==
            if InRect(sx, sy, w, h, col, ToStorageY(row, g.height)) then c else g.At(col, row)
  {
    IndexInRange(g.width, g.height, col, row);
    IndexDecompose(g.width, col, row);
  }

  /** FillRectangle seen through GetPixel: exactly the pixels of the rectangle
      that are on the grid read as `c`; every other pixel reads as before. */
  lemma GetAfterFillRect(g: Grid, sx: int, sy: int, w: int, h: int, c: Color, x: int, y: int)
    requires g.Valid()
    ensures Get(FillRect(g, sx, sy, w, h, c), x, y) ==
            if OnGrid(g, x, y) && InRect(sx, sy, w, h, x, y) then c else Get(g, x, y)
  {
    if OnGrid(g, x, y) {
      FillRectAt(g, sx, sy, w, h, c, x, g.height - 1 - y);
    }
  }

  /** A rectangle with no width or no height leaves the buffer as it is. */
  lemma FillRectEmpty(g: Grid, sx: int, sy: int, w: int, h: int, c: Color)
    requires g.Valid() && (w <= 0 || h <= 0)
    ensures FillRect(g, sx, sy, w, h, c) == g
  {
  }

  /** A rectangle covering the whole grid fills it like FillTexture does. */
  lemma FillRectCovering(g: Grid, sx: int, sy: int, w: int, h: int, c: Color)
    requires g.Valid()
    requires sx <= 0 && sy <= 0 && sx + w >= g.width && sy + h >= g.height
    ensures FillRect(g, sx, sy, w, h, c) == Filled(g.width, g.height, c)
  {
  }

  // ---------------------------------------------------------------------------
  // Block copies

  /** The block `src` placed with its bottom-left corner at storage (x, y) lies
      entirely inside `g`. */
  predicate Fits(g: Grid, src: Grid, x: int, y: int) {
    0 <= x && 0 <= y && x + src.width <= g.width && y + src.height <= g.height
  }

  /** Reference definition of the host's block write: storage pixel
      (x + i, y + j) becomes src's (i, j); everything else is kept. No y flip:
      both buffers are addressed bottom-left. */
  function Blit(g: Grid, src: Grid, x: int, y: int): (r: Grid)
    requires g.Valid() && src.Valid() && Fits(g, src, x, y)
    ensures r.Valid() && r.width == g.width && r.height == g.height
  {
    Grid(g.width, g.height,
      seq(|g.cells|, k requires 0 <= k < |g.cells| =>
        var col, row := k % g.width, k / g.width;
        if x <= col < x + src.width && y <= row < y + src.height then src.At(col - x, row - y)
        else g.cells[k]))
  }

  /** Blit, cell by cell: inside the block the source shows through at the
      offset, outside it nothing changes. */
  lemma BlitAt(g: Grid, src: Grid, x: int, y: int, col: int, row: int)
    requires g.Valid() && src.Valid() && Fits(g, src, x, y) && g.InBounds(col, row)
    ensures Blit(g, src, x, y).At(col, row) ==
            if x <= col < x + src.width && y <= row < y + src.height then src.At(col - x, row - y)
            else g.At(col, row)
  {
    IndexInRange(g.width, g.height, col, row);
    IndexDecompose(g.width, col, row);
  }

  /** A block as large as the target, placed at the origin, replaces the target
      by the source: the offset copy agrees with the whole-texture copy. */
  lemma BlitWhole(g: Grid, src: Grid)
    requires g.Valid() && src.Valid() && src.width == g.width && src.height == g.height
    ensures Blit(g, src, 0, 0) == src
  {
    var r := Blit(g, src, 0, 0);
    forall col, row | r.InBounds(col, row)
      ensures r.At(col, row) == src.At(col, row)
    {
      BlitAt(g, src, 0, 0, col, row);
    }
    GridExtensionality(r, src);
  }
}

# DynamicTexture pixel buffer, modelled in Dafny

This project models the pixel-buffer side of the LED-capture plugin's
`DynamicTexture` component. The component owns one engine texture of
`width × height` colours. The texture stores its pixels row by row from the
bottom-left corner. Callers address pixels from the top-left corner. The
component allocates the texture and paints it black. It then edits the
texture in place:

- fill the whole texture (`Clear`, `FillTexture`);
- read and write one pixel (`GetPixel`, `SetPixel`), flipping `y` to
  `height - 1 - y`;
- paint a clipped rectangle (`FillRectangle`);
- copy a whole texture of the same size (`CopyFrom(Texture2D)`);
- copy a block at a storage offset (`CopyFrom(Texture2D, x, y)`).

Files:

- `pixel_grid.dfy`, module `PixelGrid`. The buffer as a value (`Grid`), the
  colour type and the storage layout (`Index`, and the `IndexDecompose` and
  `CellOfIndex` lemmas). It also holds the y flip `ToStorageY` and the
  reference definitions the methods are proved against: `Filled`, `Get`,
  `Set`, `Put`, `FillRect` and `Blit`. Lemmas state what each of them means
  pixel by pixel.
- `unity_texture.dfy`, module `UnityTexture`. The engine's `Texture2D`,
  reduced to what the component calls: a class with constant `width`,
  `height` and a flat `array<Color>` of length `width * height`. Its methods
  are `GetPixel`, `SetPixel`, `GetPixels`, `SetPixels` and the block form of
  `SetPixels`. The engine's code is not part of this model. These methods
  are a specification of what the component needs from it.
- `dynamic_texture.dfy`, module `Components`. The `DynamicTexture` class. Its
  field `texture: Texture2D?` is null until `InitializeTexture`, which may
  change the component itself (`modifies this`). Every method that edits
  pixels carries a `modifies` frame naming only the texture's pixel array, and
  its `ensures` ties the new pixels to a reference function of the old ones.
  `GetPixel` changes nothing. The
  nested loops of `FillRectangle` are proved with the `Painted` progress
  lemmas.

Dafny has no overloading, so `Clear(Color)` is `ClearTo` and
`CopyFrom(Texture2D, int, int)` is `CopyFromAt`. Colours are opaque. `Black`
and `Clear` are the two constants the component uses, and every other colour
is `Other(code)`.

What the code does on its edge paths, and so what the model does:

- Out-of-range `SetPixel` does nothing and out-of-range `GetPixel` returns
  `Clear`. No error reaches the caller.
- `CopyFrom(source, x, y)` does no clipping, despite its warning message
  (Runtime/Components/DynamicTexture.cs:113). It warns and then hands the
  whole block to the engine.
- `InitializeTexture` does not check the size itself.

## Model

| member | source | states |
|---|---|---|
| `Components.DynamicTexture.constructor` | Runtime/Components/DynamicTexture.cs:6 | a component starts with no texture (`texture == null`) and satisfies its invariant |
| `UnityTexture.Texture2D.constructor` | Runtime/Components/DynamicTexture.cs:21 | a new texture of positive size `w × h` has that width and height and a fresh storage array of exactly `w*h` pixels; nothing is promised about its initial colours |
| `Components.DynamicTexture.InitializeTexture` | Runtime/Components/DynamicTexture.cs:18-29 | afterwards a fresh texture exists with `Width() == w`, `Height() == h`, `w*h` stored pixels, and its contents equal `Filled(w, h, Black)` |
| `Components.DynamicTexture.Width` | Runtime/Components/DynamicTexture.cs:8 | the width is positive and is the row length of storage: `Width() * Height()` is the number of stored pixels |
| `Components.DynamicTexture.Height` | Runtime/Components/DynamicTexture.cs:9 | the height is positive and is the number of stored rows |
| `Components.UniformPixels` | Runtime/Components/DynamicTexture.cs:24-28 | the loop that builds the pixel array yields a fresh array of `n` entries, every one equal to the given colour |
| `Components.DynamicTexture.Clear` | Runtime/Components/DynamicTexture.cs:70-73 | every pixel becomes `Black`: the same postcondition as `ClearTo(Black)` |
| `Components.DynamicTexture.ClearTo` | Runtime/Components/DynamicTexture.cs:75-84 | every pixel becomes `color`; width and height are constants of the texture and do not change |
| `Components.DynamicTexture.FillTexture` | Runtime/Components/DynamicTexture.cs:214-229 | on an initialised texture every pixel becomes `color`; without a texture the frame is empty, so nothing changes |
| `Components.DynamicTexture.SetPixel` | Runtime/Components/DynamicTexture.cs:157-180 | the new contents are `Set(old contents, x, y, color)`; without a texture nothing changes |
| `Components.DynamicTexture.GetPixel` | Runtime/Components/DynamicTexture.cs:188-208 | returns `Clear` when there is no texture, otherwise `Get(contents, x, y)`; it changes nothing |
| `Components.DynamicTexture.FillRectangle` | Runtime/Components/DynamicTexture.cs:239-270 | the new contents are `FillRect(old contents, startX, startY, width, height, color)`; only the texture's pixel array may change; without a texture nothing changes |
| `Components.DynamicTexture.CopyFrom` | Runtime/Components/DynamicTexture.cs:86-98 | if the sizes differ the texture is unchanged; if they are equal the texture becomes pixel-identical to the source |
| `Components.DynamicTexture.CopyFromAt` | Runtime/Components/DynamicTexture.cs:100-125 | a position outside `[0,width)×[0,height)` leaves the texture unchanged; otherwise the block fits and the new contents are `Blit(old contents, source, x, y)`, in storage coordinates with no flip |
| `Components.PaintedPut` | Runtime/Components/DynamicTexture.cs:265-266 | one inner step of `FillRectangle` on an on-grid cell adds that cell to the painted region and changes no other pixel |
| `Components.PaintedSkip` | Runtime/Components/DynamicTexture.cs:255-263 | an off-grid cell (the `continue` branch) is skipped, and no on-grid pixel was due to be painted there |
| `Components.PaintedNextRow` | Runtime/Components/DynamicTexture.cs:249-267 | when the inner loop has run `max(width, 0)` steps, the painted region is exactly the first `rows + 1` rows of the rectangle |
| `Components.PaintedAll` | Runtime/Components/DynamicTexture.cs:247-268 | after `max(height, 0)` rows the buffer equals the reference `FillRect` |
| `UnityTexture.Texture2D.SetPixel` | Runtime/Components/DynamicTexture.cs:178 | the engine's single-pixel write at storage `(col, row)` yields `Put(old, col, row, c)` |
| `UnityTexture.Texture2D.GetPixel` | Runtime/Components/DynamicTexture.cs:207 | the engine's single-pixel read returns the stored colour at `(col, row)` |
| `UnityTexture.Texture2D.GetPixels` | Runtime/Components/DynamicTexture.cs:96 | returns a fresh array equal to the whole storage |
| `UnityTexture.Texture2D.SetPixels` | Runtime/Components/DynamicTexture.cs:29 | replaces the whole storage by the given array's old contents, even when the array is the storage itself |
| `UnityTexture.Texture2D.SetPixelsRegion` | Runtime/Components/DynamicTexture.cs:121 | for a block that fits, the new contents are `Blit(old, block, x, y)` |
| `PixelGrid.ToStorageY` | Runtime/Components/DynamicTexture.cs:166 | the flip maps `[0,height)` onto itself: `y` is in range if and only if `height-1-y` is |
| `PixelGrid.StorageYInvolution` | Runtime/Components/DynamicTexture.cs:197 | the flip is its own inverse, so `GetPixel` and `SetPixel` use one mapping |
| `PixelGrid.IndexInRange` | Runtime/Components/DynamicTexture.cs:178 | every in-bounds cell `(col, row)` has a storage position `row*width+col` inside the `width*height` array |
| `PixelGrid.IndexDecompose` | Runtime/Components/DynamicTexture.cs:178 | the storage position determines the cell: column and row are its remainder and quotient by the width, so distinct cells never share storage |
| `PixelGrid.FilledAt` | Runtime/Components/DynamicTexture.cs:77-82 | every cell of a filled buffer holds the fill colour |
| `PixelGrid.GetFilled` | Runtime/Components/DynamicTexture.cs:23-29 | after initialisation, `Clear` or `FillTexture`, `GetPixel` reads the fill colour (black for initialisation) at every on-grid position |
| `PixelGrid.PutAt` | Runtime/Components/DynamicTexture.cs:178 | a storage write changes the one cell it names and no other |
| `PixelGrid.GetCases` | Runtime/Components/DynamicTexture.cs:197-207 | `GetPixel` returns `Clear` for every off-grid position, negative or too large on either axis, and otherwise reads storage row `height-1-y` |
| `PixelGrid.GetAfterSet` | Runtime/Components/DynamicTexture.cs:166-178 | after `SetPixel(x, y, c)`, `GetPixel(x, y)` returns `c` on the grid; every other position reads as before; off the grid the buffer is unchanged; the size never changes |
| `PixelGrid.FillRectAt` | Runtime/Components/DynamicTexture.cs:247-266 | a cell of the filled buffer holds `c` exactly when its top-left position lies in the rectangle, and otherwise keeps its old colour |
| `PixelGrid.GetAfterFillRect` | Runtime/Components/DynamicTexture.cs:247-266 | read through `GetPixel`, exactly the on-grid positions of `[sx,sx+w)×[sy,sy+h)` read `c` and all others read as before |
| `PixelGrid.FillRectEmpty` | Runtime/Components/DynamicTexture.cs:247-249 | a rectangle with `w <= 0` or `h <= 0` leaves the buffer unchanged |
| `PixelGrid.FillRectCovering` | Runtime/Components/DynamicTexture.cs:239-270 | a rectangle that covers the grid gives the same buffer as `FillTexture` |
| `PixelGrid.BlitAt` | Runtime/Components/DynamicTexture.cs:121 | storage pixel `(x+i, y+j)` becomes source pixel `(i, j)` inside the block, and every pixel outside the block is unchanged |
| `PixelGrid.BlitWhole` | Runtime/Components/DynamicTexture.cs:96 | a same-size block at `(0,0)` replaces the buffer by the source, so the offset copy agrees with the whole-texture copy |

## Left out

- `CopyFrom(RenderTexture)` (Runtime/Components/DynamicTexture.cs:127-149) is not modelled. It is a GPU readback through the engine's global active render target.
- `texture.Apply()` (the GPU upload), `wrapMode` (line 32), `SetFilterMode` (the call at line 33 and the method at lines 39-42) and `InitializeRawImage` (lines 47-68) are engine calls and component wiring with no effect on the pixel buffer, so they are not modelled.
- The `Debug.LogError` and `Debug.LogWarning` calls are not modelled. The paths that log an error and return are modelled as doing nothing else. The one warning that does not return (lines 112-114) is the `CopyFromAt` overrun case below.
- Components.DynamicTexture.CopyFromAt: a block that starts inside the texture but overruns it is excluded by a precondition. The component only warns and passes the whole block to the engine's `SetPixels`. What the engine does then is not part of this model. The component itself does no clipping.
- Components.DynamicTexture.InitializeTexture: requires `w > 0 && h > 0`. The component does not check the size, and `new Color[width*height]` accepts zero (and, for two negative sizes, a positive product). The model assumes that the engine's `Texture2D` constructor rejects non-positive sizes; that engine code is not part of this model, so the model says nothing about those calls. Such a call is reachable in this repository: `LEDConfig.OnLoaded` (Runtime/Configs/LEDConfig.cs:35-38) adds a default `LEDScreen` whose `size` is a default-constructed vector, presumably (0, 0). `LEDCaptureUI.OnLoaded` (Runtime/UIs/LEDCaptureUI.cs:53-56) passes that size through `AddLEDTexture` to `InitializeTexture` (line 34).
- Components.DynamicTexture.ClearTo: `Clear(color)` (line 77) dereferences the texture without a null check. Calling it uninitialised raises an exception, which the model excludes with `requires texture != null`.
- Components.DynamicTexture.Clear: `Clear()` (lines 70-73, through `Clear(Color.black)`) dereferences the texture without a null check. Calling it uninitialised raises an exception, which the model excludes with `requires texture != null`.
- Components.DynamicTexture.CopyFrom: `CopyFrom(source)` (lines 88-96) dereferences the texture without a null check. Calling it uninitialised raises an exception, which the model excludes with `requires texture != null`.
- Components.DynamicTexture.CopyFromAt: `CopyFrom(source, x, y)` (lines 102-121) dereferences the texture without a null check. Calling it uninitialised raises an exception, which the model excludes with `requires texture != null`.
- Components.DynamicTexture.Width: the `width` property (line 8) dereferences the texture without a null check. Calling it uninitialised raises an exception, which the model excludes with `requires texture != null`.
- Components.DynamicTexture.Height: the `height` property (line 9) dereferences the texture without a null check. Calling it uninitialised raises an exception, which the model excludes with `requires texture != null`.
- Components.DynamicTexture.CopyFrom: the promise that the texture becomes pixel-identical to the source holds in the program only for a source whose colours are 8-bit values, such as another RGBA32 texture. `CopyFrom(source)` (line 96) and `CopyFrom(source, x, y)` (line 121) write `source.GetPixels()` into the RGBA32 texture, and a source of another format is rounded on the way (see the next line). The engine's `GetPixels` also throws for a source texture that is not CPU-readable; the model's `Texture2D` has no readability flag and does not model that exception. The same two points hold for `Components.DynamicTexture.CopyFromAt`.
- Colour channels are floating-point in the engine, and the texture is created as `TextureFormat.RGBA32` (line 21), so storage rounds each channel to 8 bits. `SetPixel` (line 178), `Clear(c)`, `FillTexture(c)`, `CopyFrom` (line 96) and `CopyFrom(source, x, y)` (line 121) store the rounded colour, and `GetPixel` (line 207) returns it. The model's `Color` stands for the stored 8-bit value: its read-back lemmas (`PixelGrid.GetAfterSet`, `PixelGrid.GetFilled`) say that the colour read equals the colour written only in that sense. For a colour that 8-bit channels do not represent exactly, the program reads back the rounded value. `Black` and `Clear` are represented exactly.
- 32-bit integer arithmetic in `width * height`, `height - 1 - y` and `startX + x` is modelled with unbounded integers. Wrap-around is not modelled.
- The texture's initial colours straight after construction are the engine's business. The model promises nothing about them until `SetPixels` paints them black.
- The screen registry, placement nudging and configuration persistence do not belong to the texture component (Runtime/UIs/LEDCaptureUI.cs, Runtime/Configs/LEDConfig.cs). Neither does editor asset registration (Editor/ModuleAutomation.cs). They are engine UI, XML serialisation and editor glue.

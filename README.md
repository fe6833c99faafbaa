# Liquid-metal logo preprocessor: a verified model

This project models `processLogoImage`, the routine that turns an uploaded
logo into the distance-field texture that drives the liquid-metal shader.
The routine runs in four stages over a `width × height` RGBA raster:

1. **Working size** (`WorkingSize`, `resize.dfy`). The dominant side is the
   width when it is strictly larger than the height, and the height
   otherwise. It is clamped into [500, 1000]. The other side is rescaled by
   the same factor with `Math.round`. If the dominant side is already in
   range, nothing changes.
2. **Shape and edge masks** (`Classify`, `classify.dfy`). A pixel is shape
   unless it is exactly opaque white or fully transparent. A shape pixel is
   an edge when one of its 8 neighbours is off the grid or is not shape.
3. **Diffusion** (`Diffusion`, `diffusion.dfy`). The solver runs 300
   synchronous Jacobi passes with two buffers. Background and edge pixels
   are pinned to 0. Every other pixel gets `(0.01 + the previous values of
   its 4 direct neighbours) / 4`.
4. **Normalise and encode** (`Encoder`, `encoder.dfy`). A running maximum
   `maxDist` is taken over the field. Each shape pixel gets grey intensity
   `255 · (1 − (f / maxDist)²)` with alpha 255. Background pixels get white
   with a background alpha chosen by the caller. The in-page processor uses
   alpha 0. The exported snippet's copy of the same algorithm uses 255.

`Pipeline` (`pipeline.dfy`) chains the stages in `ProcessLogoImage`. It
also holds the end-to-end properties. `Raster` (`raster.dfy`) holds the
byte type, the grid dimensions and the link between `(x, y)` and the flat
index `y · width + x`.

Each stage that updates arrays in the source is a method over arrays with
loop invariants:
- the nested `y`/`x` loops that fill the masks;
- the 3 × 3 neighbour scan with its early exit;
- the pass loop, which writes `tempField` and then copies it back into
  `distField`;
- the maximum accumulator;
- the loop that writes the output buffer.

Each method is proved equal to a pure specification function
(`ShapeMaskOf`, `EdgeMaskOf`, `Step`/`Field`, `MaxOf`, `EncodeSpec`). The
properties are proved about those functions.

The field is modelled over `real`. The 32-bit float rounding of
`Float32Array` is not captured. `Math.pow(q, 2)` is `q * q`. Storing a
number in the clamped output byte array is modelled exactly for finite
values: clamp to [0, 255], then round to nearest with ties to even.

Two quirks of the resize rule are kept as the code has them:
- A positive rescaled side is not guaranteed. The model keeps 0, so
  3000 × 1 becomes 1000 × 0 (`ResizeExamples`).
- When the dominant side is in range and the other side is not, nothing is
  resized, so 800 × 300 stays 800 × 300.

The model departs from the code in one place. When `maxDist = 0`, every
shape pixel is an edge. There the code divides 0 by 0 and stores the NaN as
0, which makes the whole shape black. The pipeline instead uses the
corrected intensity, 255, which edge pixels get whenever `maxDist > 0`.
Findings below gives the details. `Encoder.IntensityAsWritten` models the
code as written.

## Model

| member | source | states |
|---|---|---|
| `WorkingSize.RoundDiv` | src/utils/imageProcessor.ts:18 | `Math.round(n / d)` for a non-negative quotient: the result r is the unique integer with r − ½ ≤ n / d < r + ½ |
| `WorkingSize.Resize` | src/utils/imageProcessor.ts:12-33 | dominant side in [500, 1000] ⇒ unchanged, even when the other side is out of range; an out-of-range dominant side becomes its nearer limit; the result's dominant side is in [500, 1000]; the side that dominated is still at least as long as the other (a tie may then hand dominance to the height, e.g. 2001×2000 → 1000×1000); when the dominant side is out of range, the other side is `ScaleOther` of it, that is `Math.round` with ties up, so the aspect ratio is kept to within half a pixel |
| `WorkingSize.Clamp` | src/utils/imageProcessor.ts:16-31 | a side above 1000 becomes 1000, a side below 500 becomes 500, and a side in [500, 1000] is kept |
| `WorkingSize.ScaleOther` | src/utils/imageProcessor.ts:18-29 | the rescaled other side is `Math.round(limit · other / dominant)`: r − ½ ≤ limit · other / dominant < r + ½, so an exact half rounds up; it never exceeds `limit` and may be 0 |
| `WorkingSize.RoundDivUnique` | src/utils/imageProcessor.ts:18 | exactly one integer satisfies the `Math.round` bracket, so that bracket determines the rounded side |
| `WorkingSize.ResizeDetermined` | src/utils/imageProcessor.ts:15-33 | when the dominant side is out of range, the only size with the clamped dominant side and the other side in the rounding bracket is `Resize`'s result |
| `WorkingSize.HalfRoundsUp` | src/utils/imageProcessor.ts:18 | 2000 × 1 becomes 1000 × 1, not 1000 × 0: 0.5 rounds up |
| `WorkingSize.ResizeIdempotent` | src/utils/imageProcessor.ts:15-33 | resizing an already resized size changes nothing |
| `WorkingSize.ResizeExamples` | src/utils/imageProcessor.ts:15-33 | 2000×1000 → 1000×500, 2000×500 → 1000×250, 100×100 → 500×500, 800×300 unchanged, 3000×1 → 1000×0, half-up rounding |
| `Classify.BackgroundExamples` | src/utils/imageProcessor.ts:58 | the background test is exact: near-white pixels and almost-opaque white pixels are shape; any colour at alpha 0 is background |
| `Classify.ComputeShapeMask` | src/utils/imageProcessor.ts:46-62 | pixel i is in the mask iff NOT (r = g = b = a = 255) and a ≠ 0; the mask equals `ShapeMaskOf` |
| `Classify.EdgeMaskOf` | src/utils/imageProcessor.ts:65-91 | the edge mask is a subset of the shape mask |
| `Classify.ScanNeighbours` | src/utils/imageProcessor.ts:73-84 | the early-exit 3 × 3 scan reports an edge iff some position of the block is off the grid or not shape |
| `Classify.ComputeEdgeMask` | src/utils/imageProcessor.ts:65-91 | edge ⊆ shape; (x, y) is an edge iff it is shape and has an open neighbour; the mask equals `EdgeMaskOf` |
| `Classify.BorderShapeIsEdge` | src/utils/imageProcessor.ts:80 | every shape pixel on the border of the grid has an open neighbour, so it is an edge |
| `Classify.InteriorNeighbours` | src/utils/imageProcessor.ts:75-84 | a shape pixel without an open neighbour is off the border, and its four direct neighbours are on the grid and shape |
| `Diffusion.FieldValue` | src/utils/imageProcessor.ts:98-103 | a neighbour reads as its field value when on the grid and shape, and as 0 otherwise |
| `Diffusion.GetFieldValue` | src/utils/imageProcessor.ts:98-103 | the array read agrees with `FieldValue` |
| `Diffusion.Step` | src/utils/imageProcessor.ts:107-125 | one synchronous pass computed from the previous field only; every pinned pixel (non-shape or edge) gets 0 |
| `Diffusion.Field` | src/utils/imageProcessor.ts:94-131 | after every number of passes, starting from zeros, the field is ≥ 0 everywhere and exactly 0 at every pinned pixel |
| `Diffusion.RelaxPass` | src/utils/imageProcessor.ts:107-125 | writes only `tempField`, which becomes `Step` of the unchanged `distField` |
| `Diffusion.CopyBack` | src/utils/imageProcessor.ts:128-130 | `distField` becomes a copy of `tempField` |
| `Diffusion.Solve` | src/utils/imageProcessor.ts:94-131 | the double-buffered solver leaves exactly the field after 300 synchronous passes |
| `Diffusion.StepMonotone` | src/utils/imageProcessor.ts:117-123 | a pass is monotone: a pointwise larger field gives a pointwise larger next field |
| `Diffusion.FieldGrows` | src/utils/imageProcessor.ts:106-131 | no field value decreases from one pass to the next |
| `Diffusion.FieldBounded` | src/utils/imageProcessor.ts:106-131 | after n passes every value is at most n · 0.01 / 4 |
| `Diffusion.InteriorPositive` | src/utils/imageProcessor.ts:117-123 | after at least one pass every interior shape pixel holds at least 0.01 / 4 |
| `Diffusion.StepInterior` | src/utils/imageProcessor.ts:116-123 | an interior pixel at (x, y) gets (0.01 + the previous values at (x±1, y) and (x, y±1)) / 4, all four on the grid |
| `Encoder.MaxOf` | src/utils/imageProcessor.ts:134-139 | the running maximum from 0 is ≥ 0, bounds every value, and is 0 or one of the values |
| `Encoder.MaxZeroIffNonePositive` | src/utils/imageProcessor.ts:134-139 | the maximum is 0 exactly when no value is positive |
| `Encoder.MaxDistance` | src/utils/imageProcessor.ts:134-139 | the accumulator loop returns `MaxOf` of the field |
| `Encoder.RoundHalfEven` | src/utils/imageProcessor.ts:153 | the stored integer is within ½ of the value, and an exact tie goes to the even neighbour |
| `Encoder.ToClampedByte` | src/utils/imageProcessor.ts:153-155 | storing into the clamped byte array gives 0 at or below 0, 255 at or above 255, and within ½ of the value in between |
| `Encoder.Falloff` | src/utils/imageProcessor.ts:151 | `255 · (1 − (f / maxDist)²)` lies in [0, 255] for 0 ≤ f ≤ maxDist and is 255 at f = 0 |
| `Encoder.IntensityAsWritten` | src/utils/imageProcessor.ts:151-155 | the stored intensity as the code computes it: 0 when maxDist = 0, because NaN is stored as 0 |
| `Encoder.ZeroMaxBlackensEdges` | src/utils/imageProcessor.ts:151 | as written, an edge pixel (field 0) is stored as 0 when maxDist = 0 but as 255 when maxDist > 0; the corrected intensity gives 255 in both cases |
| `Encoder.Intensity` | src/utils/imageProcessor.ts:151-155 | field 0 (every edge pixel) and maxDist = 0 both give 255; otherwise the byte is within ½ of the falloff |
| `Encoder.RoundHalfEvenMonotone` | src/utils/imageProcessor.ts:153 | rounding half to even is monotone |
| `Encoder.ToClampedByteMonotone` | src/utils/imageProcessor.ts:153 | the clamped byte store is monotone |
| `Encoder.IntensityAntitone` | src/utils/imageProcessor.ts:151 | for 0 ≤ f1 ≤ f2 ≤ maxDist, f2 is never encoded brighter than f1 |
| `Encoder.EncodedPixel` | src/utils/imageProcessor.ts:144-164 | bytes 4i to 4i+3 are [v, v, v, 255] for a shape pixel and [255, 255, 255, background alpha] otherwise |
| `Encoder.StorePixel` | src/utils/imageProcessor.ts:149-162 | writes the four channels of one pixel and leaves every other byte unchanged |
| `Encoder.Encode` | src/utils/imageProcessor.ts:142-164 | the output loop fills the buffer with exactly `EncodeSpec` |
| `Pipeline.ProcessLogoImage` | src/utils/imageProcessor.ts:12-166 | the working size is `Resize` of the image size; the output has width · height · 4 bytes and equals the composition of the four stages |
| `Pipeline.MaxZeroIffNoInterior` | src/utils/imageProcessor.ts:134-139 | after ≥ 1 pass, maxDist = 0 iff every pixel is pinned, that is iff no shape pixel lies off the edge |
| `Pipeline.OutputPixel` | src/utils/imageProcessor.ts:144-162 | background → (255, 255, 255, background alpha); shape → r = g = b and a = 255; edge → (255, 255, 255, 255), with the corrected intensity (the code gives (0, 0, 0, 255) when maxDist = 0) |
| `Pipeline.DeeperIsDarker` | src/utils/imageProcessor.ts:151 | of two shape pixels, the one with the larger field value is never the brighter |
| `Pipeline.CallSitesDifferOnlyInBackgroundAlpha` | src/utils/codeExporter.ts:377-382 | background alpha 0 and background alpha 255 give outputs that differ exactly in the alpha byte of background pixels |
| `Pipeline.AllBackground` | src/utils/imageProcessor.ts:157-162 | an image with no shape pixel encodes as white with the background alpha everywhere |
| `Pipeline.NoInterior` | src/utils/imageProcessor.ts:134-162 | if every shape pixel is an edge, then maxDist = 0; with the corrected intensity every shape pixel is encoded opaque white, where the code stores opaque black |
| `Pipeline.CentreDotExample` | src/utils/imageProcessor.ts:67-91 | in a 3 × 3 white image with one black centre pixel, the centre is shape and edge, maxDist = 0, the centre encodes as opaque white with the corrected intensity (the code stores opaque black), and every other pixel is background |

## Findings

| source | as written | input that shows it | evidently intended | confidence | as-written member | corrected member |
|---|---|---|---|---|---|---|
| src/utils/imageProcessor.ts:151 | `distField[idx] / maxDist` is 0 / 0 = NaN when `maxDist` is 0. The clamped byte array stores NaN as 0, so every shape pixel becomes opaque black | a 3 × 3 opaque white image with one black centre pixel: the centre is an edge, `maxDist` = 0, and the centre is stored as (0, 0, 0, 255). An edge pixel of any shape with an interior is stored as (255, 255, 255, 255) | a field value of 0 encodes as 255 whatever `maxDist` is, so edges stay white when the shape has no interior | medium; not executed | `Encoder.IntensityAsWritten` (exhibited by `Encoder.ZeroMaxBlackensEdges`) | `Encoder.Intensity` |

The same division appears in the exported snippet's copy
(src/utils/codeExporter.ts:372). The rest of the model uses
`Encoder.Intensity`.

## Left out

- Drawing the image onto a canvas at the working size and reading it back
  (`createElement`, `getContext`, `drawImage`, `getImageData`,
  `createImageData`) is browser raster I/O with unspecified interpolation.
  `ProcessLogoImage` takes the drawn RGBA bytes as an input of length
  `width · height · 4`. The output buffer starts all-zero, as
  `createImageData` gives it.
- A missing 2D context (the error thrown at src/utils/imageProcessor.ts:7-9)
  belongs to the canvas and is not modelled.
- A working size with a zero side, for example from a 3000 × 1 image: the
  canvas read-back rejects a zero-sized rectangle. The model instead
  processes an empty grid and returns an empty buffer.
- The Promise wrapper and `loadDefaultLogo` (Blob, object URL, image
  loading) are asynchronous I/O.
- `WorkingSize.Resize`: requires that the image is not 0 × 0. There the
  height is set to 500 and the width becomes `Math.round(0 / 0)`, which is
  NaN.
- `Pipeline.ProcessLogoImage`, `Pipeline.OutputPixel`, `Pipeline.NoInterior`
  and `Pipeline.CentreDotExample`: when `maxDist = 0`, the model encodes
  every shape pixel with intensity 255 (opaque white). The code stores 0
  there (opaque black), as `Encoder.IntensityAsWritten` and
  `Encoder.ZeroMaxBlackensEdges` show. See Findings.
- The field's 32-bit float storage and the double-precision arithmetic of
  the falloff are modelled over `real`. NaN is not modelled in general. It
  arises only for `maxDist = 0`, which `Encoder.IntensityAsWritten`
  covers.
- The exported snippet (src/utils/codeExporter.ts) is HTML template text.
  Its copy of the algorithm differs only in the background alpha, which is
  the `backgroundAlpha` parameter here (`Encoder.OpaqueBackground`).
- A claim that the field strictly increases from the boundary towards the
  centre of a filled disk is not proved. The model proves that values grow
  from pass to pass (`Diffusion.FieldGrows`), are bounded
  (`Diffusion.FieldBounded`), and are positive off the edge
  (`Diffusion.InteriorPositive`).
- The React component, WebGL helpers, the parameter UI and the page markup
  (src/components/LiquidMetalEffect.tsx, src/utils/webglUtils.ts,
  src/pages/Index.tsx) are rendering and UI glue around this routine.

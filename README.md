# gentexture integer core in Dafny

This project models the integer and fixed-point core of the gentexture procedural texture
library (the split copy: `lib_ktg/ktg/helpers.h`, `lib_ktg/ktg/gentexture.cpp`,
`lib_ops/gentexture/filters.cpp`, `lib_ops/gentexture/generators.cpp` and
`lib_ktg/ktg/combiners.cpp`) and proves properties of it.

- **Helpers** (`helpers.dfy`): the fixed-point helpers. `MulIntens` keeps its uint32
  wrap-around explicitly and is proved to round a·b/65535. `MulShift16` and `UMulShift8` keep
  their 64-bit products. `Lerp` is modelled together with the int32 overflow of `t * (b - a)`,
  and `FloorLog2` is a method that follows the source's chain of masks.
- **Pixels** (`pixel.dfy`): `Pixel` holds four channels in 0..65535. `Init`, `Lerp` and the
  four `Composite*` operators are functions that return the updated pixel. A `uint16_t` store
  that could wrap is written out as `Trunc16`.
- **Textures** (`textures.dfy`): `Texture` is a class with the eight fields of the C++ object.
  Its constructors, `Init`, `UpdateSize`, `Swap` and `operator=` (`Assign`) update those fields.
  The samplers only read the texture, so they are functions of `Image`, a value snapshot of
  the pixels and size fields that `Texture.View()` returns. Coordinates are 1.7.24 fixed
  point: 2^24 spans the texture once, and `& 0xffffff` is the Euclidean remainder modulo 2^24.
- **Filters** (`filters.dfy`): `ColorMatrixTransform`, `CoordMatrixTransform`, `ColorRemap`
  and `CoordRemap` are methods whose loops overwrite `dest.Data`. Each is proved to write, at
  every pixel, a pixel function of the input, and the properties of that function are
  separate lemmas.
- **Blur** (`blur.dfy`): `WrapCoord`, the sliding-window accumulator of `Blur1DBuffer`, and
  the row and column ping-pong of `Blur`. The output of `Blur1DBuffer` is proved equal to a
  closed-form box filter (`BlurLine`).
- **Perlin** (`perlin.dfy`, modules `Lfsr` and `Perlin`): the LFSR key generator, the table
  sort, `P` and `GShuffle`.
- **Cells** (`cells.dfy`): the centre points, the per-row insertion sort by toroidal y
  distance, and the branch-and-bound nearest-centre search. Cells is proved to label every
  pixel with a nearest centre on the torus.
- **Combiners** (`combiners.dfy`): `Ternary`, `Paste` with its twelve blend operations, and
  `LinearCombine`.

Float-derived values become integer parameters. These are the matrix entries times 65536, the
Blur kernel sizes, the LinearCombine weights and shifts, the Paste rectangle, skip flag and
u/v deltas, the CoordRemap strengths times 2^24, and the Cells centres after the
`int(c * scale + 0.5f)` rounding.

The enum bit values (`ClampU = 1`, `ClampV = 2`, `FilterBilinear = 4`) are those of
`extra/lib_ktg/ktg/gentexture.h:99-110`. `CombinePreAlpha` follows the code, which sets alpha
from the green channel of the pasted pixel (`lib_ktg/ktg/combiners.cpp:133-138`). The comment
at `extra/lib_ktg/ktg/gentexture.h:70` says it takes alpha from the red channel.

## Model

The definitions that model the source's own functions are the ones the rows below constrain,
and they carry no rows of their own. Each is stated through lemma rows that cite the same
lines:
- `Helpers.IsPowerOf2` (helpers.h:41-45): IsPowerOf2Spec, IsPowerOf2OfPow2.
- `Helpers.MulIntens` (helpers.h:76-82): MulIntensRounds and the MulIntens rows after it.
- `Helpers.MulShift16` (helpers.h:84-88): MulShift16Rounds, MulShift16Unit, MulShift16Bounded.
- `Helpers.UMulShift8` (helpers.h:90-94): UMulShift8Rounds.
- `Helpers.Lerp` (helpers.h:96-101): LerpBetween, LerpWrapHarmless.
- `Pixels.InitBytes` (gentexture.cpp:28-34): Widen on each channel.
- `Pixels.InitPacked` (gentexture.cpp:36-47): InitPackedPremultiplied, InitPackedOpaque,
  InitPackedTransparent.
- `Pixels.Lerp` (gentexture.cpp:49-55): LerpChannels, LerpEndpoints, BilinearWithin.
- The composites `Pixels.CompositeAdd`, `CompositeMulC`, `CompositeROver` and
  `CompositeScreen` (gentexture.cpp:57-88): the rows starting with their names.
- `Textures.Texture.SameSize` (gentexture.cpp:190-193): Textures.Texture.SameSizeFields.
- The samplers `Textures.Image.SampleNearest`, `SampleBilinear`, `SampleFiltered` and
  `SampleGradient` (gentexture.cpp:196-255): the Textures.Image.Sample* rows.
- `Blur.BlurLine` (filters.cpp:224-305) and `Blur.Blurred` (filters.cpp:307-391):
  BlurChannelBetween, BlurLineConstant, BlurredWithin, BlurredConstant.
- `Combiners.TernaryPixel` (combiners.cpp:19-43): TernaryLerpLimits, TernarySelectRounds.
- `Combiners.Blend` (combiners.cpp:92-179): AddSubInverse through BlendBlack.
- `Combiners.PastePixel` (combiners.cpp:80-185): PasteIdentity, PasteOverOpaque.
- `Combiners.LinearPixel` (combiners.cpp:341-365): LinearConstant, LinearSingle,
  LinearCopies.

| member | source | states |
|---|---|---|
| Helpers.IsPowerOf2Spec | lib_ktg/ktg/helpers.h:41-45 | `(x & (x - 1)) == 0` holds exactly when x is 0 or a positive power of two (both directions) |
| Helpers.IsPowerOf2OfPow2 | lib_ktg/ktg/helpers.h:41-45 | every 2^k with k <= 30 passes the test |
| Helpers.Clamp | lib_ktg/ktg/helpers.h:47-51 | for lo <= hi the result lies in [lo, hi]; it is v inside the range, lo below and hi above |
| Helpers.FloorLog2 | lib_ktg/ktg/helpers.h:53-74 | the result r is 0 for x = 0, and otherwise 2^r <= x < 2^(r+1) |
| Helpers.Pow2Log | lib_ktg/ktg/helpers.h:53-74 | the r bracketed by 2^r <= 2^k < 2^(r+1) is k, so FloorLog2(2^k) = k |
| Helpers.MulIntensRounds | lib_ktg/ktg/helpers.h:76-82 | for a, b <= 65535 the uint32 sum a·b + 0x8000 does not wrap, and the result is the integer nearest a·b/65535 (within 32767/65535) |
| Helpers.MulIntensUnit | lib_ktg/ktg/helpers.h:76-82 | 65535 is a unit and 0 is absorbing, on either side |
| Helpers.MulIntensBelow | lib_ktg/ktg/helpers.h:76-82 | the product never exceeds either factor |
| Helpers.MulIntensComplement | lib_ktg/ktg/helpers.h:76-82 | scaling by 1 - a leaves exactly b minus scaling by a |
| Helpers.MulIntensMonotone | lib_ktg/ktg/helpers.h:76-82 | the product is monotone in its second factor |
| Helpers.MulIntensCommutes | lib_ktg/ktg/helpers.h:76-82 | the product is symmetric |
| Helpers.MulShift16Rounds | lib_ktg/ktg/helpers.h:84-88 | when the quotient fits an int, the int64 sum does not wrap and the result is the round-half-up of a·b/65536 |
| Helpers.MulShift16Unit | lib_ktg/ktg/helpers.h:84-88 | a factor of 65536 (1.0) keeps a channel, 0 gives 0 |
| Helpers.MulShift16Bounded | lib_ktg/ktg/helpers.h:84-88 | a weight of magnitude at most 127.0 times a channel stays within ±127·65535 |
| Helpers.UMulShift8Rounds | lib_ktg/ktg/helpers.h:90-94 | when the quotient fits a uint32, the uint64 sum does not wrap and the result is the round-half-up of a·b/256 |
| Helpers.LerpBetween | lib_ktg/ktg/helpers.h:96-101 | for 0 <= t <= 65536, t = 0 gives a, t = 65536 gives b, and the result lies between a and b |
| Helpers.LerpWrapHarmless | lib_ktg/ktg/helpers.h:96-101 | for 16-bit endpoints, the int32 overflow of `t * (b - a)` followed by the uint16 store gives exactly the mathematical Lerp |
| Pixels.Widen | lib_ktg/ktg/gentexture.cpp:28-34 | both bytes of the channel are the input byte (v·257), and 0 maps to 0, 255 to 65535, in both directions |
| Pixels.PremultiplySpec | lib_ktg/ktg/gentexture.cpp:36-47 | premultiplying keeps alpha and gives colour channels no larger than alpha; alpha 65535 keeps the colour, alpha 0 gives black |
| Pixels.InitPackedPremultiplied | lib_ktg/ktg/gentexture.cpp:36-47 | Init(0xAARRGGBB) sets alpha to AA widened and leaves a premultiplied pixel |
| Pixels.InitPackedOpaque | lib_ktg/ktg/gentexture.cpp:36-47 | with AA = 0xff the colour bytes pass through as in the byte Init |
| Pixels.InitPackedTransparent | lib_ktg/ktg/gentexture.cpp:36-47 | with AA = 0 the pixel is black |
| Pixels.LerpChannels | lib_ktg/ktg/gentexture.cpp:49-55 | every channel of Pixel::Lerp is the helper Lerp of the two channels and lies between them |
| Pixels.LerpEndpoints | lib_ktg/ktg/gentexture.cpp:49-55 | t = 0 gives x and t = 65536 gives y |
| Pixels.BilinearWithin | lib_ktg/ktg/gentexture.cpp:213-235 | a lerp of two lerps never leaves the range of its four corner channels |
| Pixels.CompositeAddSaturates | lib_ktg/ktg/gentexture.cpp:57-63 | each channel is min(p + x, 65535); the sum is symmetric and black adds nothing |
| Pixels.MulChannelRounds | lib_ktg/ktg/gentexture.cpp:65-71 | a channel product is the integer nearest d·s/65535 and is no larger than either factor |
| Pixels.CompositeMulCProps | lib_ktg/ktg/gentexture.cpp:65-71 | the product is symmetric, white is its unit and it never brightens |
| Pixels.ROverChannelExact | lib_ktg/ktg/gentexture.cpp:73-80 | over a premultiplied source channel the sum fits 16 bits, and a destination channel below its alpha stays below the new alpha |
| Pixels.CompositeROverPremultiplied | lib_ktg/ktg/gentexture.cpp:73-80 | premultiplied inputs give `(1 - x.a)·p + x` channel by channel, and a premultiplied result |
| Pixels.CompositeROverLimits | lib_ktg/ktg/gentexture.cpp:73-80 | an opaque x replaces the pixel and an all-zero x leaves it unchanged |
| Pixels.ScreenChannelFormula | lib_ktg/ktg/gentexture.cpp:82-88 | a screened channel is d + s - d·s and never wraps |
| Pixels.ScreenChannelSpec | lib_ktg/ktg/gentexture.cpp:82-88 | screening a channel is symmetric and at least either operand |
| Pixels.CompositeScreenProps | lib_ktg/ktg/gentexture.cpp:82-88 | CompositeScreen is symmetric and never darkens either pixel |
| Textures.SizeValues | lib_ktg/ktg/gentexture.cpp:160-168 | NPixels = XRes·YRes, ShiftX = log2 XRes and MinX = 2^24 / (2·XRes), and the same on y |
| Textures.AxisFromLog | lib_ktg/ktg/gentexture.cpp:160-168 | the FloorLog2 of an accepted resolution gives a consistent shift and half-texel minimum 2^(23 - shift) |
| Textures.MinIsHalfTexel | lib_ktg/ktg/gentexture.cpp:160-168 | `1 << (24 - 1 - shift)` is half a texel, 2^24 / (2·2^shift) |
| Textures.Texture.UpdateSize | lib_ktg/ktg/gentexture.cpp:160-168 | the derived size fields agree with XRes and YRes; XRes, YRes and the pixel array are unchanged |
| Textures.Texture.Empty | lib_ktg/ktg/gentexture.cpp:105-112 | a valid 0 x 0 texture with its own (empty) pixel array |
| Textures.Texture.constructor | lib_ktg/ktg/gentexture.cpp:114-121 | a valid xres x yres texture with a fresh pixel array |
| Textures.Texture.Copy | lib_ktg/ktg/gentexture.cpp:123-131 | a valid texture of the same size whose fresh pixel array is equal pixel for pixel |
| Textures.Texture.Init | lib_ktg/ktg/gentexture.cpp:143-158 | the texture takes the new size; with unchanged dimensions the pixel array is kept, otherwise a fresh one is allocated |
| Textures.Texture.Swap | lib_ktg/ktg/gentexture.cpp:170-180 | all eight fields are exchanged, and two valid textures stay valid |
| Textures.Texture.Assign | lib_ktg/ktg/gentexture.cpp:182-188 | the target takes the source's size and an equal, fresh copy of its pixels |
| Textures.Texture.SameSizeFields | lib_ktg/ktg/gentexture.cpp:190-193 | two valid textures of the same size have equal NPixels, pixel count, shifts and half texels, so a loop over one's NPixels stays inside the other's pixels |
| Textures.Image.Index | lib_ktg/ktg/gentexture.cpp:196-211 | `(iy << ShiftX) + ix` lies in [0, NPixels), and its row and column are iy and ix |
| Textures.NearestTexel | lib_ktg/ktg/gentexture.cpp:196-211 | the texel index a coordinate selects is in [0, 2^shift) for every coordinate and mode |
| Textures.TapAt | lib_ktg/ktg/gentexture.cpp:213-235 | the two neighbouring texels are in range, the second one wraps to 0 after the last, and the weight is below 1.0 |
| Textures.GradientBase | lib_ktg/ktg/gentexture.cpp:245-255 | the clamped gradient coordinate is in [0, 2^24); it is 0 at or below 0 and the start of the last texel at or above 2^24 |
| Textures.AxisPeriodic | lib_ktg/ktg/gentexture.cpp:196-235 | without clamping, shifting a coordinate by multiples of 2^24 selects the same texels and weight |
| Textures.AxisClamps | lib_ktg/ktg/gentexture.cpp:196-235 | with clamping, coordinates beyond either half-texel edge select what the edge selects |
| Textures.Image.SampleNearestAtCentre | lib_ktg/ktg/gentexture.cpp:196-211 | at the centre `(i << (24 - ShiftX)) + MinX` of a texel, SampleNearest returns that texel exactly in every mode |
| Textures.Image.SampleBilinearAtCentre | lib_ktg/ktg/gentexture.cpp:213-235 | at a texel centre the weights are zero and SampleBilinear returns that texel exactly |
| Textures.Image.SampleFilteredAtCentre | lib_ktg/ktg/gentexture.cpp:237-243 | both filters agree at texel centres and return the texel |
| Textures.Image.SampleWraps | lib_ktg/ktg/gentexture.cpp:196-235 | in wrap mode, coordinates 2^24 apart on an axis sample the same pixel, for both filters |
| Textures.Image.SampleClampsU | lib_ktg/ktg/gentexture.cpp:196-235 | in clamp mode, u beyond either edge centre samples as the edge centre does |
| Textures.Image.SampleClampsV | lib_ktg/ktg/gentexture.cpp:196-235 | the same on v |
| Textures.Image.SampleBilinearWithin | lib_ktg/ktg/gentexture.cpp:213-235 | each channel of the bilinear sample lies within the range of the four texels it blends |
| Textures.Image.SampleGradientStart | lib_ktg/ktg/gentexture.cpp:245-255 | inputs <= 0 return the first texel exactly |
| Textures.Image.SampleGradientEnd | lib_ktg/ktg/gentexture.cpp:245-255 | inputs >= 2^24 return the last texel of the first row exactly |
| Textures.Image.SampleGradientWithin | lib_ktg/ktg/gentexture.cpp:245-255 | the gradient lerps two neighbouring texels of the first row (the last wrapping to the first), and each channel lies between theirs |
| Filters.MapPixels | lib_ops/gentexture/filters.cpp:35-59 | slot i of the destination becomes f of the old source pixel i, for every pixel, even when both arrays are the same |
| Filters.Dot | lib_ops/gentexture/filters.cpp:40-43 | a row of four MulShift16 terms with entries of magnitude at most 127.0 stays within ±4·127·65535, so it fits an int |
| Filters.MatrixPixel | lib_ops/gentexture/filters.cpp:45-58 | with clampPremult the written pixel is premultiplied |
| Filters.MatrixPixelClamps | lib_ops/gentexture/filters.cpp:45-58 | without clampPremult each of r, g, b and a is its row's dot product, kept when inside [0, 65535] and pinned to the nearer bound outside; with clampPremult alpha is pinned to [0, 65535] and each of r, g and b to [0, alpha] in the same way |
| Filters.IdentityKeeps | lib_ops/gentexture/filters.cpp:35-58 | the fixed-point identity matrix keeps every pixel, and with clampPremult keeps every premultiplied pixel |
| Filters.ColorMatrixTransform | lib_ops/gentexture/filters.cpp:20-60 | every dest pixel is MatrixPixel of the matching input pixel |
| Filters.AffineSteps | lib_ops/gentexture/filters.cpp:76-92 | the closed-form coordinate grows by dudx per pixel and dudy per row, as the accumulators do |
| Filters.AffineIdentity | lib_ops/gentexture/filters.cpp:62-73 | the identity matrix on a 2^shift axis puts pixel x at its texel centre |
| Filters.IdentityTransformCopies | lib_ops/gentexture/filters.cpp:62-93 | sampling a texture through the identity transform returns each texel exactly |
| Filters.AffineRow | lib_ops/gentexture/filters.cpp:78-89 | the incremental u, v of one row write, at pixel x, the sample at the closed-form coordinates of x |
| Filters.AffineFill | lib_ops/gentexture/filters.cpp:76-92 | every pixel of the grid is the sample at its closed-form coordinates |
| Filters.CoordMatrixTransform | lib_ops/gentexture/filters.cpp:62-93 | dest pixel (x, y) is the input sampled at (u0 + x·dudx + y·dudy, v0 + x·dvdx + y·dvdy) |
| Filters.OpaqueIndex | lib_ops/gentexture/filters.cpp:108-110 | `(c << 8) + ((c + 128) >> 8)` lies in [0, 2^24] and maps 0 to 0 and 65535 to 2^24 |
| Filters.OpaqueIndexRounds | lib_ops/gentexture/filters.cpp:108-110 | the index is the nearest integer to c·2^24/65535: 65535 times it differs from c·2^24 by at most 32767 |
| Filters.InverseAlpha | lib_ops/gentexture/filters.cpp:120 | `(65535 << 16) / a` is the reciprocal of alpha in 16.16: a times it lies in (65535·2^16 − a, 65535·2^16] |
| Filters.PartialIndex | lib_ops/gentexture/filters.cpp:120-124 | the gradient index of a partially transparent pixel is 256·65535·min(c, a)/a (the channel un-premultiplied by alpha) up to the stated rounding, lies in [0, 2^24), and is 0 for a zero channel |
| Filters.RemapPixel | lib_ops/gentexture/filters.cpp:99-133 | alpha is always kept, an alpha-0 pixel passes through unchanged, and any other result is premultiplied |
| Filters.ColorRemap | lib_ops/gentexture/filters.cpp:95-134 | every dest pixel is RemapPixel of the matching input pixel |
| Filters.Displacement | lib_ops/gentexture/filters.cpp:157-158 | a remap channel of 32768 displaces by 0, and no displacement exceeds the strength in magnitude |
| Filters.RemapCoordNeutral | lib_ops/gentexture/filters.cpp:143-161 | with a neutral remap channel pixel x samples exactly at its texel centre |
| Filters.NeutralRemapCopies | lib_ops/gentexture/filters.cpp:136-168 | a neutral remap texture copies the input texel for texel |
| Filters.RemapRow | lib_ops/gentexture/filters.cpp:152-164 | the row loop writes at pixel x the sample at MinX + x·stepU plus the u displacement of remap pixel x |
| Filters.RemapFill | lib_ops/gentexture/filters.cpp:150-167 | every pixel is the sample at its displaced coordinates |
| Filters.RemapImage | lib_ops/gentexture/filters.cpp:150-167 | every pixel becomes the chosen image's SampleFiltered at its texel centre displaced by the old r and g channels of the remap pixel |
| Filters.CoordRemap | lib_ops/gentexture/filters.cpp:136-168 | dest pixel (x, y) is the input sampled at (MinX + x·stepU + `MulShift16(scaleU, (r - 32768)·2)`, MinY + y·stepV + the same with g and scaleV) |
| Blur.WrapCoord | lib_ops/gentexture/filters.cpp:215-221 | mode 0 returns x mod width on a power-of-two width, negative x included; clamp mode clamps to [0, width - 1] |
| Blur.FracMask | lib_ops/gentexture/filters.cpp:227 | `(sizeFixed - 32) & 63` is the weight of the two end taps |
| Blur.KernelWeights | lib_ops/gentexture/filters.cpp:226-232 | for sizeFixed > 32 the asserted identity (offset - 1)·64 + frac + 32 = sizeFixed holds, and the weights add up to denom = 2·sizeFixed |
| Blur.WindowBound | lib_ops/gentexture/filters.cpp:224-305 | the weighted window sum lies in [0, 65535·denom] |
| Blur.BlurChannel | lib_ops/gentexture/filters.cpp:286-292 | an output channel is the window sum plus bias, divided by denom (rounded to nearest) |
| Blur.BlurChannelBetween | lib_ops/gentexture/filters.cpp:224-305 | if every input channel lies in [lo, hi], so does every output channel |
| Blur.BlurLineConstant | lib_ops/gentexture/filters.cpp:224-305 | a constant line is returned unchanged |
| Blur.WindowStep | lib_ops/gentexture/filters.cpp:294-303 | the source's accumulator update moves the window one pixel to the right |
| Blur.WindowAtZero | lib_ops/gentexture/filters.cpp:237-257 | the wrap-mode initialisation is the window at pixel 0 |
| Blur.ClampWindowStart | lib_ops/gentexture/filters.cpp:258-283 | the clamp-mode initialisation (first pixel repeated) is the window at pixel 0 |
| Blur.AccuFits | lib_ops/gentexture/filters.cpp:231-235 | for sizeFixed <= 32768 the accumulator plus bias fits a uint32 |
| Blur.BlurChannelUint32 | lib_ops/gentexture/filters.cpp:231-292 | the uint32 accumulator as written agrees with BlurChannel whenever sizeFixed <= 32768 |
| Blur.Uint32Exact | lib_ops/gentexture/filters.cpp:231-292 | below that bound the wrapped quotient stored into 16 bits is the exact channel |
| Blur.WhiteLineWraps | lib_ops/gentexture/filters.cpp:231-292 | with sizeFixed = 65536 a white line blurs to 32767 as written, against 65535 exactly |
| Blur.SlideStep | lib_ops/gentexture/filters.cpp:294-303 | one update of all four accumulators gives the accumulators of the next pixel |
| Blur.InitWrap | lib_ops/gentexture/filters.cpp:237-257 | the wrap-mode accumulators are the window at pixel 0 plus bias |
| Blur.InitClamp | lib_ops/gentexture/filters.cpp:258-283 | the clamp-mode accumulators are the window at pixel 0 plus bias |
| Blur.OutputPixel | lib_ops/gentexture/filters.cpp:286-304 | one turn of the output loop writes the blurred pixel and leaves the next pixel's accumulators |
| Blur.Blur1DBuffer | lib_ops/gentexture/filters.cpp:224-305 | the first width pixels of dst become the box-filtered line BlurLine of src, and dst is unchanged beyond them; this is the exact filter, which the source's uint32 arithmetic matches for sizeFixed <= 32768 (see Findings) |
| Blur.PingPong | lib_ops/gentexture/filters.cpp:343-348 | after order passes the buffer named buf1 holds order successive blurs of the input line |
| Blur.RowPass | lib_ops/gentexture/filters.cpp:334-355 | every row of the destination is its input row blurred order times |
| Blur.GatherColumn | lib_ops/gentexture/filters.cpp:363-371 | the buffer receives column x of the texture |
| Blur.ScatterColumn | lib_ops/gentexture/filters.cpp:380-388 | column x of the texture receives the buffer, and every other column is unchanged |
| Blur.ColumnPass | lib_ops/gentexture/filters.cpp:357-390 | every column of the destination is its input column blurred order times |
| Blur.Blur | lib_ops/gentexture/filters.cpp:307-391 | dest takes the input's size and the pixels Blurred gives: a copy when order < 1 or both sizes <= 32, else the horizontal pass if sizeX > 32, then the vertical pass if sizeY > 32; every pass is the exact filter, which the source matches for sizes <= 32768 (see Findings) |
| Blur.BlurredWithin | lib_ops/gentexture/filters.cpp:307-391 | if a channel of every input pixel lies in [lo, hi], so does that channel of every blurred pixel |
| Blur.BlurredConstant | lib_ops/gentexture/filters.cpp:307-391 | a constant texture blurs to itself |
| Lfsr.LfsrRoundTrip | lib_ops/gentexture/generators.cpp:31 | the LFSR step can be undone, so it loses no state |
| Perlin.Keys | lib_ops/gentexture/generators.cpp:27-32 | the 4096 keys are the seed and its successive LFSR steps |
| Perlin.GenerateKeys | lib_ops/gentexture/generators.cpp:27-32 | the key loop fills the key array with Keys() |
| Perlin.CompareAsWritten | lib_ops/gentexture/generators.cpp:14-20 | the comparator as written is k1 - k2 whenever that difference fits an int |
| Perlin.CompareAsWrittenInconsistent | lib_ops/gentexture/generators.cpp:14-20 | it calls 0 less than 0x80000000 and 0x80000000 less than 0, so it is not an order |
| Perlin.CompareAsWrittenNear | lib_ops/gentexture/generators.cpp:14-20 | for keys less than 2^31 apart its sign is the order of the keys (both directions) |
| Perlin.CompareKeys | lib_ops/gentexture/generators.cpp:14-20 | the corrected comparator is negative exactly when k1 < k2 and positive exactly when k1 > k2 |
| Perlin.SortByKey | lib_ops/gentexture/generators.cpp:37 | the table is permuted into non-decreasing key order |
| Perlin.Insert | lib_ops/gentexture/generators.cpp:37 | one insertion extends the sorted prefix by one and permutes the table |
| Perlin.InitPerlin | lib_ops/gentexture/generators.cpp:22-41 | Ptable is a permutation of 0..4095, sorted by its LFSR keys |
| Perlin.TableValues | lib_ops/gentexture/generators.cpp:34-37 | every entry of the table is in [0, 4095] |
| Perlin.TableDistinct | lib_ops/gentexture/generators.cpp:34-37 | the table has no repeated entries |
| Perlin.P | lib_ops/gentexture/generators.cpp:8-11 | P returns a value in [0, 4095] for every int, negatives included |
| Perlin.PIndex | lib_ops/gentexture/generators.cpp:8-11 | `i & 4095` indexes the table at i mod 4096 |
| Perlin.PPeriodic | lib_ops/gentexture/generators.cpp:8-11 | P has period 4096 |
| Perlin.PInjective | lib_ops/gentexture/generators.cpp:8-11 | inputs that differ modulo 4096 give different values |
| Perlin.PSurjective | lib_ops/gentexture/generators.cpp:8-11 | every value in [0, 4095] is P of some index |
| Perlin.GShuffle | lib_ops/gentexture/generators.cpp:105-119 | GShuffle returns a value in [0, 4095] for every int input |
| Perlin.GShufflePeriodic | lib_ops/gentexture/generators.cpp:105-119 | it has period 4096 in each argument |
| Perlin.GShuffleInjectiveZ | lib_ops/gentexture/generators.cpp:105-119 | for fixed x, y, values of z that differ modulo 4096 give different results |
| Cells.Toroidal | lib_ops/gentexture/generators.cpp:339-340 | the toroidal component min(d, 2^14 - d) lies in [0, 2^13] |
| Cells.ToroidalNearest | lib_ops/gentexture/generators.cpp:339-340 | it is no larger than the distance from d to any multiple of 2^14 |
| Cells.ToroidalSymmetric | lib_ops/gentexture/generators.cpp:339-340 | it does not depend on the sign of d |
| Cells.Mask14 | lib_ops/gentexture/generators.cpp:339 | `d & (scale - 1)` is d mod 2^14, negative d included |
| Cells.MaskedAxisDist | lib_ops/gentexture/generators.cpp:339-340 | the masked formula is the squared toroidal distance |
| Cells.CentreDist | lib_ops/gentexture/generators.cpp:385-390 | every squared distance lies in [0, 2^27], below the initial best 2^28 |
| Cells.InitPoints | lib_ops/gentexture/generators.cpp:318-324 | point i holds centre i masked to 14 bits, and its node is i |
| Cells.InitialHoldsCentres | lib_ops/gentexture/generators.cpp:318-324 | the initial points are exactly the centres, one point per centre |
| Cells.CentresPermutation | lib_ops/gentexture/generators.cpp:343-356 | any permutation of the points still holds every centre once |
| Cells.RowDistances | lib_ops/gentexture/generators.cpp:336-341 | each point's distY becomes its squared toroidal y distance to the row, and nothing else changes |
| Cells.DistYPermutation | lib_ops/gentexture/generators.cpp:343-356 | sorting keeps every distY equal to the true y distance |
| Cells.SortRow | lib_ops/gentexture/generators.cpp:343-356 | the points are permuted into non-decreasing distY order |
| Cells.InsertPoint | lib_ops/gentexture/generators.cpp:346-355 | one insertion extends the sorted prefix by one and permutes the points |
| Cells.SearchAgrees | lib_ops/gentexture/generators.cpp:368-382 | when besti and best2i are both valid on entry, the corrected search is the search as written |
| Cells.ScanFinds | lib_ops/gentexture/generators.cpp:384-404 | the early-exit scan over distY-sorted points ends with a valid besti, best <= best2, and best no larger than any point's distance |
| Cells.SearchFinds | lib_ops/gentexture/generators.cpp:364-404 | with the corrected refresh, every pixel's search ends with a valid besti whose distance is minimal, and the state it carries to the next pixel is sound |
| Cells.SearchAsWrittenHasBest | lib_ops/gentexture/generators.cpp:358-422 | even as written, from the row's start state or a carried state holding a best point, the search ends with 0 ≤ besti < the centre count, so `points[besti]` is read in bounds |
| Cells.SearchAsWrittenWrongCell | lib_ops/gentexture/generators.cpp:368-400 | as written, centres at x = 0 and 4096 tie at pixel 0 and leave no second point, so pixel 1 is labelled with the centre 6144² away instead of the one 2048² away |
| Cells.SearchAsWrittenStale | lib_ops/gentexture/generators.cpp:368-382 | with one centre the search as written keeps at the second pixel the best distance of the first (2048², against 6144²) |
| Cells.Scan | lib_ops/gentexture/generators.cpp:384-404 | the search loop computes the scan function |
| Cells.SearchPixel | lib_ops/gentexture/generators.cpp:368-404 | the refresh and the search loop compute one corrected search step |
| Cells.NearestFromSearch | lib_ops/gentexture/generators.cpp:358-404 | the node of the point the search names is a centre nearest to the pixel on the torus |
| Cells.CellsPixel | lib_ops/gentexture/generators.cpp:364-426 | each pixel is labelled with a nearest centre, and the carried state stays sound |
| Cells.CellsRow | lib_ops/gentexture/generators.cpp:364-426 | every pixel of the row is labelled with a centre nearest to its centre (x·step + step/2, yc) |
| Cells.Cells | lib_ops/gentexture/generators.cpp:299-430 | every pixel of the texture is labelled with a centre nearest to the pixel's centre on the torus |
| Combiners.LerpByChannelBetween | lib_ktg/ktg/combiners.cpp:31-35 | the two lerp weights never sum past 65535, so the store keeps the sum; it lies between the endpoints and meets them at t = 0 and t = 65535 |
| Combiners.TernaryLerpLimits | lib_ktg/ktg/combiners.cpp:31-35 | in3.r = 0 gives in1, in3.r = 65535 gives in2, every channel lies between in1's and in2's, and equal inputs are kept |
| Combiners.TernarySelectRounds | lib_ktg/ktg/combiners.cpp:38-39 | Select is Lerp with in3.r rounded to 0 or 65535 at the threshold 32768, so it gives exactly in2 or in1 |
| Combiners.Ternary | lib_ktg/ktg/combiners.cpp:19-43 | every dest pixel is the Lerp or Select of the three matching input pixels |
| Combiners.AddSubInverse | lib_ktg/ktg/combiners.cpp:94-105 | Sub is max(out - in, 0); Sub undoes an unsaturated Add, and Add after Sub is the channel-wise maximum |
| Combiners.MinMaxLattice | lib_ktg/ktg/combiners.cpp:115-126 | Min and Max are channel-wise lower and upper bounds, symmetric, and absorb each other |
| Combiners.AlphaOps | lib_ktg/ktg/combiners.cpp:129-137 | SetAlpha changes only alpha, to in.r; PreAlpha scales colour by in.r and sets alpha to in.g |
| Combiners.ScreenIsOverAlpha | lib_ktg/ktg/combiners.cpp:140-146 | the alpha rule `out.a += in.a·(1 - out.a)` is Over applied to the alpha channel |
| Combiners.OverIsCompositeROver | lib_ktg/ktg/combiners.cpp:140-146 | CombineOver is Pixel::CompositeROver: an opaque input replaces out, an all-zero input keeps it, and premultiplied inputs give a premultiplied result |
| Combiners.OpaqueBlends | lib_ktg/ktg/combiners.cpp:149-177 | on opaque pixels Multiply is the channel product, Darken is Min and Lighten is Max |
| Combiners.BlendBlack | lib_ktg/ktg/combiners.cpp:92-179 | pasting an all-zero pixel leaves out unchanged under Add, Sub, Max, Over, Screen, Multiply, Darken and Lighten, and Min then gives black |
| Combiners.ClipRect | lib_ktg/ktg/combiners.cpp:56-60 | a point is inside the clipped rectangle exactly when it is inside the raw rectangle and the texture |
| Combiners.PasteMode | lib_ktg/ktg/combiners.cpp:91 | the sampling mode clamps both axes and filters bilinearly exactly when bit 0 of mode is set |
| Combiners.PasteSteps | lib_ktg/ktg/combiners.cpp:78-189 | the closed-form u, v grow by the per-pixel and per-row deltas the loops add |
| Combiners.PasteIdentity | lib_ktg/ktg/combiners.cpp:78-189 | pasting a texture over the whole destination with the identity mapping blends each pixel with the matching texel |
| Combiners.PasteOverOpaque | lib_ktg/ktg/combiners.cpp:84-147 | Over with an opaque sample writes the sample |
| Combiners.PasteRow | lib_ktg/ktg/combiners.cpp:80-185 | each pixel of the row run is blended at its stepped (u, v) if that lies in [0, 2^24)², and all other pixels are unchanged |
| Combiners.PasteRegion | lib_ktg/ktg/combiners.cpp:78-189 | every pixel becomes PastePixel of its background pixel |
| Combiners.Paste | lib_ktg/ktg/combiners.cpp:45-190 | dest takes the background's size; every pixel is the background pixel when the map is degenerate, else PastePixel: blended inside the clipped rectangle where (u, v) lies in [0, 2^24)², the background elsewhere |
| Combiners.InputSum | lib_ktg/ktg/combiners.cpp:348-359 | the weighted sum of n inputs stays within ±n·127·65535 on every channel |
| Combiners.AccumulatorFits | lib_ktg/ktg/combiners.cpp:305-359 | under the asserted limits (at most 255 inputs, weights of magnitude at most 127.0) every accumulator stays within int32 |
| Combiners.LinearConstant | lib_ktg/ktg/combiners.cpp:320-365 | with no inputs and constant weight 65536 every pixel is color |
| Combiners.LinearSingle | lib_ktg/ktg/combiners.cpp:341-365 | one input of weight 1.0 and constant weight 0 gives exactly that input's sample |
| Combiners.LinearCopies | lib_ktg/ktg/combiners.cpp:327-370 | such an input with no shift is copied texel for texel |
| Combiners.CombineInputs | lib_ktg/ktg/combiners.cpp:341-359 | the input loop adds every weighted sample to the accumulators |
| Combiners.CombinePixel | lib_ktg/ktg/combiners.cpp:341-365 | the pixel stored is the clamped accumulator sum |
| Combiners.LinearRow | lib_ktg/ktg/combiners.cpp:336-370 | the row loop writes at pixel x the combination at MinX + x·stepU |
| Combiners.LinearFill | lib_ktg/ktg/combiners.cpp:334-373 | every pixel (x, y) is the combination at its texel centre |
| Combiners.LinearCombine | lib_ktg/ktg/combiners.cpp:301-374 | dest pixel (x, y) is the clamped sum of the weighted constant and the weighted input samples, input j sampled at (MinX + x·stepU + uo[j], MinY + y·stepV + vo[j]) |

## Left out

- Pixel methods update `this` in place in the source. The model returns the updated value,
  because Pixel is a value type copied by assignment and stored by value in pixel arrays.
- Noise, Noise2, PNoise2, GNoise2, PGradient2, SmoothStep, LerpF, GlowRect, Bump and Derive
  are left out. They are float arithmetic with `pow`, `sqrt` and normal vectors.
- The float-to-fixed conversions are left out; their integer results are parameters. These
  are the Paste bounding rectangle and Cramer's-rule setup (the `detM` test becomes the
  `tiny` flag), the Blur `sizePix` computation, the LinearCombine weight and shift scaling,
  the CoordMatrixTransform matrix scaling, the CoordRemap strength scaling, and the Cells
  centre quantisation.
- Cells.Cells: the output is the index of a nearest centre per pixel, not a colour. The
  `sqrt` and `amp` mapping, the gradient lookup and the `CompositeMulC` with the centre's
  colour are float arithmetic or ordinary sampling, not part of the search.
- Cells.Cells: both texture sizes must be at most 2^14 (`shiftX <= ScaleF`, `shiftY <= ScaleF`).
  The source computes the pixel step as `1 << (scaleF - ShiftX)` with scaleF = 14, and that
  shift is undefined behaviour for larger textures.
- Cells.Cells: `best2` stays a search bound only. The model does not claim it is the exact
  second-nearest distance, which only the outer-mode colour uses.
- Perlin.InitPerlin: the table is sorted by unsigned key through an insertion sort, and only
  the permutation and the key order are claimed. The qsort element order the faulty
  comparator produces is not modelled (see Findings).
- The int32 wrap-around of coordinate accumulators is not modelled. This covers u, v, u0 and
  v0 in CoordMatrixTransform, CoordRemap, Paste and LinearCombine, and `u + uo[j]` in
  LinearCombine. Coordinates are mathematical integers, exact wherever the source does not
  overflow.
- Combiners.LinearCombine: inputs are `Image` snapshots taken before the call, so an input
  that is the destination itself is read as it was before the call, not as it is overwritten.
- Combiners.Ternary: for TernaryLerp, dest must not share pixels with in3. With that alias the
  source reads a red channel it has just overwritten.
- Combiners.Paste: the pasted texture must not share pixels with dest. dest may be the
  background itself, which the source handles by skipping the copy.
- Filters.CoordMatrixTransform: the sampled texture must not share pixels with dest.
- Filters.CoordRemap: the sampled texture must not share pixels with dest.
- Filters.ColorRemap: the three maps must not share pixels with dest.
- Blur.Blur: dest must be the input itself or use a separate pixel array.
- Blur.Blur1DBuffer: for sizeFixed > 32768 it writes the exact box filter, not the wrapped
  result of the source's `uint32_t` accumulators. This is the corrected definition of the
  Findings row for filters.cpp:231-292; BlurChannelUint32 and WhiteLineWraps model the wrap.
- Blur.Blur: for sizePixX or sizePixY > 32768 every pass is the exact filter, not the
  source's wrapped result, because it is built on Blur1DBuffer.
- Sampling requires a non-empty texture (`Sampleable`). The source's samplers read out of
  bounds on an empty texture.
- The source's `assert`s are preconditions of the model: equal sizes, at most 255
  LinearCombine inputs, weights within ±127.0, the Cells centre count and `sizeFixed > 32`.
- Textures.Texture.constructor: for a 0×0 size the source's `Texture(xres, yres)` leaves
  NPixels, ShiftX, ShiftY, MinX and MinY unset, because Init only calls UpdateSize when the
  size changes. The model gives them the values UpdateSize computes for 0×0, as the default
  constructor does.
- Texture `__ctor`, the destructor, `Free` and memory ownership are not modelled. Allocation
  is `new` of a Dafny array, and `memcpy` is an element-by-element copy loop.
- The static `Ptable` and its registration at start-up are not modelled. The table is an
  array that InitPerlin fills, and P and GShuffle take it as a parameter.
- The monolithic copy `lib_ops/gentexture/gentexture.cpp` and the headers are not modelled
  separately. The monolithic copy repeats the same bodies as `GenTexture` methods, and the
  headers only declare types and enums.

## Findings

| source | as written | input that shows it | evidently intended | confidence | as-written member | corrected member |
|---|---|---|---|---|---|---|
| lib_ops/gentexture/filters.cpp:231-292 | the four Blur1DBuffer accumulators are `uint32_t`; with weights summing to 2·sizeFixed a channel contributes up to 65535·2·sizeFixed, which wraps once sizeFixed > 32768 (e.g. a 4096-pixel axis blurred at size 1.0) | a white line (every channel 65535) with sizeFixed = 65536 blurs to 32767 | the exact rounded box filter, which keeps a white line at 65535 | not executed | Blur.BlurChannelUint32, Blur.WhiteLineWraps | Blur.BlurChannel, Blur.BlurChannelBetween, Blur.Blur1DBuffer, Blur.Blur |
| lib_ops/gentexture/generators.cpp:14-20 | InitPerlinCompare returns the unsigned difference `i1 - i2` converted to int, which gives the wrong sign when keys differ by 2^31 or more | keys 0 and 0x80000000: each compares as less than the other | a consistent three-way comparison of the unsigned keys | not executed | Perlin.CompareAsWritten, Perlin.CompareAsWrittenInconsistent | Perlin.CompareKeys, Perlin.SortByKey, Perlin.InitPerlin |
| lib_ops/gentexture/generators.cpp:368-382 | the per-pixel refresh of best and best2 runs only when both besti and best2i are valid, so with best2i = -1 a stale best from the previous pixel survives | one centre at (0, 0), pixels at x = 2048 then x = 6144 in one row: best stays 2048² although the distance is 6144²; also centres at x = 0 and x = 4096, which tie at pixel 0 (x = 2048) and leave best2i = −1, so pixel 1 (x = 6144) is labelled with the farther centre | refresh best whenever besti is valid, with a missing second point counting as 2^28 | not executed | Cells.SearchAsWritten, Cells.SearchAsWrittenStale, Cells.SearchAsWrittenWrongCell | Cells.SearchStep, Cells.SearchFinds, Cells.Cells |

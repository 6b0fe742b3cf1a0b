# ray_tracer core in Dafny

This project models the core of a small C++ CPU path tracer. It has five parts.

- **The colour value** (`color::clamped`). Channels are exact reals.
- **The texture class**: a row-major array of colours, with its constructor, copy and move operations, `at` and `sample`.
- **The 24-bit BMP codec** (`bmp::texture_to_bmp`, `bmp::bmp_to_texture`).
  - A pure byte-level format spec (`BmpFormat.Encode`, `BmpFormat.Decode`) holds the header layout, the padded bottom-up rows and the decoder's checks.
  - Imperative methods (`Bmp`) write and read the bytes with the source's loops. Each is proved to compute the spec.
  - Lemmas cover the round trip up to 8-bit quantisation, re-encoding, every header field and every pixel and padding byte.
- **The integrator `trace_ray`**, with its depth cutoff, nearest-hit scan, Russian roulette, low-throughput exit and diffuse/mirror choice.
  - The version in main.cpp and the one in the `scene` class share one skeleton (`Tracing`).
  - A `Policy` supplies the constants in which they differ:
    - main.cpp: depth cutoff 32, roulette at depth > 5, shading normal kept only when it faces the ray.
    - `scene`: cutoff `max_bounces` from the render settings, roulette at depth > 4, debug views, normal flipped only when it points away.
  - Geometry is abstract: intersection, dot product, reflection and the cosine-hemisphere bounce are functions the caller supplies.
  - The random engine is the stream of its draws, with a position. Every `randf` consumes the next draw.
- **The render driver of main.cpp** (`Render`).
  - The rows are split into one band per worker.
  - `render_rows(start, end)` fills its band pixel by pixel with the clamped average of 64 traced samples. Each band draws from an engine seeded with its `start`.
  - The proof shows three things: the bands tile the rows exactly, each row lying in exactly one band; the final image holds the bands' values, every channel in [0, 1]; and cell (x, y) holds the clamped average of pixel (x, y)'s 64 samples, drawn from the engine of the band that holds row y.

Modules and files:

| file | module | contents |
|---|---|---|
| wrappers.dfy | Wrappers | `Option`, `Result` |
| colors.dfy | Colors | colour datatype, `Clamped`, channel helpers |
| textures.dfy | Textures | `Image` value, `Texture` class, sampling |
| bmp_format.dfy | BmpFormat | byte layout spec of the encoder and decoder, and lemmas |
| bmp.dfy | Bmp | encoder and decoder as methods over arrays and textures |
| tracing.dfy | Tracing | nearest-hit scan and the shared integrator |
| path_tracer.dfy | PathTracer | main.cpp's `trace_ray` policy and one camera sample |
| scenes.dfy | Scenes | `scene` class, render settings, its `trace_ray` |
| render.dfy | Render | row partition, `render_rows`, the whole render |

## Model

| member | source | states |
|---|---|---|
| Colors.Clamped | include/components/rendering/color.hpp:30-37 | For ordered bounds the result lies in [lo, hi]. A channel at or below lo becomes lo, one at or above hi becomes hi, and a colour already in range is returned unchanged. With hi < lo every channel becomes hi, which is what `min(max(v, lo), hi)` gives. |
| Colors.ClampedIdempotent | include/components/rendering/color.hpp:30-37 | Clamping twice with the same bounds equals clamping once, for any bounds. |
| Colors.ClampedPerChannel | include/components/rendering/color.hpp:32-36 | Each output channel depends only on the same input channel. |
| Colors.ClampedDefaultBounds | include/components/rendering/color.hpp:30 | The default bounds are 0 and 1, so `clamped()` lands in the unit cube. |
| Colors.MaxChannel | main.cpp:91 | `std::max({r, g, b})` is an upper bound of the three channels and is one of them. |
| Textures.CellIndexInRange | include/rendering/texture.hpp:79-82 | `at(x, y)` with in-range coordinates addresses a cell inside the w*h array. |
| Textures.CellIndexInjective | include/rendering/texture.hpp:79-82 | Distinct in-range coordinates address distinct cells. |
| Textures.CellCoordinates | include/rendering/texture.hpp:81 | Every cell index is addressed by exactly the coordinates (i % w, i / w). |
| Textures.Texture.constructor | include/rendering/texture.hpp:22-26 | A fresh array of w*h cells, each equal to `fill`. The dimensions are as given. |
| Textures.Texture.Copy | include/rendering/texture.hpp:32-38 | Same dimensions and cells as the other texture, in freshly allocated storage. |
| Textures.Texture.Move | include/rendering/texture.hpp:40-46 | Takes over the other texture's array and dimensions. The source is left 0×0 with a null array. |
| Textures.Texture.CopyAssign | include/rendering/texture.hpp:48-61 | Self-assignment changes nothing. Otherwise the texture gets the other's dimensions and cells in fresh storage. |
| Textures.Texture.MoveAssign | include/rendering/texture.hpp:63-77 | Self-assignment changes nothing. Otherwise the texture takes the other's storage and the other is left empty. |
| Textures.Texture.At | include/rendering/texture.hpp:79-82 | `at(x, y)` with in-range coordinates reads cell y·w + x, which lies inside the array. |
| Textures.Texture.SetAt | include/rendering/texture.hpp:79-82 | Writing through `at(x, y)` changes cell y*w + x to the new colour and no other cell. |
| Textures.SampleCoord | include/rendering/texture.hpp:85-92 | The truncated, capped coordinate always names a valid row or column. |
| Textures.SampleCoordBounds | include/rendering/texture.hpp:88-92 | The index never exceeds the scaled coordinate. A coordinate of exactly 1 is capped to the last cell. |
| Textures.Texture.Sample | include/rendering/texture.hpp:84-95 | `sample(u, v)` always returns one of the texture's own cells. |
| Textures.SamplePeriodic | include/rendering/texture.hpp:85-86 | Shifting u or v by whole numbers reads the same cell (wrap-around). |
| Textures.SampleCell | include/rendering/texture.hpp:84-95 | For (u, v) in [0,1)², sampling reads the cell whose square contains (u·w, v·h). |
| BmpFormat.RowPadded | include/systems/image/bmp.hpp:54 | For width ≥ 0 the padded row size is a multiple of 4 and lies between 3w and 3w+3. |
| BmpFormat.RowPaddedMinimal | include/systems/image/bmp.hpp:54 | The padded row size is the least multiple of 4 that holds 3w bytes. |
| BmpFormat.RowPaddedNonNegative | include/systems/image/bmp.hpp:54 | The row buffer size is non-negative exactly when width ≥ -1. |
| BmpFormat.HeaderFields | include/systems/image/bmp.hpp:24-46 | Read back through the decoder's little-endian readers, every header field has the encoder's value:<br>• "BM", reserved fields 0, offset 54, info size 40;<br>• width, height, 1 plane, 24 bits, no compression, 2835 pixels per metre in x and y;<br>• 0 colours used and 0 important;<br>• bfSize and biSizeImage taken modulo 2³². |
| BmpFormat.ChannelByteBounds | include/systems/image/bmp.hpp:81-83 | The byte is the clamped channel times 255, truncated. It is 0 at or below 0 and 255 at or above 1. |
| BmpFormat.Encode | include/systems/image/bmp.hpp:49-97 | Encoding fails, with `AllocationFailed`, exactly when the width is below -1 (the row buffer's size would be negative). A written file starts with the 54-byte header of the texture's dimensions. |
| BmpFormat.EncodeLength | include/systems/image/bmp.hpp:55-93 | The file is 54 header bytes plus RowPadded(w) bytes for each of the h rows. |
| BmpFormat.EncodeHeader | include/systems/image/bmp.hpp:55-71 | For dimensions in [0, 2³¹), the written file has:<br>• the length from EncodeLength;<br>• a bfSize equal to that length mod 2³²;<br>• bfOffBits 54;<br>• the texture's dimensions;<br>• 24 bpp, no compression;<br>• biSizeImage equal to the pixel data size mod 2³². |
| BmpFormat.EncodeShape | include/systems/image/bmp.hpp:70-94 | For a positive height the file is exactly the two headers followed by the rows. |
| BmpFormat.EncodePixel | include/systems/image/bmp.hpp:75-88 | Pixel x of file row y holds the B, G, R bytes of texture cell (x, h-1-y) at 3x, 3x+1, 3x+2 (a vertical flip). |
| BmpFormat.EncodePadding | include/systems/image/bmp.hpp:89-91 | Every byte between 3w and the padded row length is 0. |
| BmpFormat.RoundTrip | include/systems/image/bmp.hpp:49-142 | Decoding the encoder's file restores the dimensions and every cell, quantised to 8 bits. |
| BmpFormat.ReencodeIsIdentity | include/systems/image/bmp.hpp:49-142 | Encoding the decoded texture writes the same file again, byte for byte. |
| BmpFormat.Decode | include/systems/image/bmp.hpp:99-142 | A decoded image is well formed: it has width·height cells. |
| BmpFormat.DecodeStopsAtLastPixel | include/systems/image/bmp.hpp:119-137 | No byte after the last row's pixels is read: cutting a decodable file anywhere from max(54, the end of the last row's pixels) on, for instance dropping the last row's padding, decodes to the same texture. |
| BmpFormat.SinglePixelWithoutPadding | include/systems/image/bmp.hpp:119-137 | A 1×1 image's 58-byte file, cut to 57 bytes by dropping its one padding byte, still decodes to the quantised pixel. |
| BmpFormat.DecodeSignature | include/systems/image/bmp.hpp:111-112 | Given full headers, "Not a BMP file" occurs exactly when bfType is not 0x4D42. |
| BmpFormat.DecodeFormat | include/systems/image/bmp.hpp:114-115 | With a good signature, the format is rejected exactly when bit count ≠ 24 or compression ≠ 0. |
| BmpFormat.DecodeAccepted | include/systems/image/bmp.hpp:108-117 | A decoded texture has the header's signed width and height, and came from a file that passed both checks. |
| BmpFormat.DecodePixel | include/systems/image/bmp.hpp:119-138 | Cell (x, y) is read from the B, G, R bytes at bfOffBits + (h-1-y)·rowSize + 3x, each divided by 255. |
| BmpFormat.DecodeIgnoresSizeFields | include/systems/image/bmp.hpp:108-119 | bfSize and biSizeImage are never consulted: when bfOffBits ≥ 54, so that the pixel rows do not overlap the headers, two files that differ only in those fields decode alike. |
| Bmp.TextureToBmp | include/systems/image/bmp.hpp:49-97 | The bytes the encoder writes are exactly `Encode` of the texture's contents. |
| Bmp.WriteRows | include/systems/image/bmp.hpp:75-94 | After the y loop the output is the headers followed by all file rows in order. |
| Bmp.FillRow | include/systems/image/bmp.hpp:77-91 | Once the pixels are filled and the padding zeroed, the row buffer equals file row j. |
| Bmp.FillPixels | include/systems/image/bmp.hpp:77-88 | The first 3w bytes of the buffer are the B, G, R triples of texture row h-1-j. |
| Bmp.FillPixel | include/systems/image/bmp.hpp:79-87 | One pass of the x loop extends the filled prefix by pixel x's triple. |
| Bmp.FilledRow | include/systems/image/bmp.hpp:89-91 | A buffer holding a prefix and zeros after it equals the prefix followed by zero padding. |
| Bmp.ReadAt | include/systems/image/bmp.hpp:126 | A read of n bytes at pos succeeds exactly when n = 0 or the bytes are in the file. A short read gets every byte left in the file. Either way the bytes obtained are the file's own, from pos on. |
| Bmp.BmpToTexture | include/systems/image/bmp.hpp:99-142 | On a file `Decode` rejects, the method returns that same error. Otherwise it returns a fresh valid texture equal to the decoded image. |
| Bmp.ReadRows | include/systems/image/bmp.hpp:124-139 | The y loop either reads every row, leaving the cells `RowsDecoded` up to h, or stops when a read misses some of its row's pixel bytes. It stops only when the last row's pixel bytes extend past the file's end; missing padding alone does not stop it. |
| Bmp.ReadRow | include/systems/image/bmp.hpp:126-138 | Reading file row y adds exactly that row's pixels to the cells decoded so far. |
| Bmp.ReadPixel | include/systems/image/bmp.hpp:129-137 | One pass of the x loop stores pixel x of file row y into cell (x, h-1-y). |
| Tracing.NearestCorrect | main.cpp:64-82 | The scan misses exactly when no test hits below 1e30. Otherwise it finds the first nearest hit: every earlier hit is strictly farther and no later hit is closer. |
| Tracing.NearestIs | main.cpp:64-79 | The scan selects object i if and only if i is the first nearest hit. |
| Tracing.ScanNearest | main.cpp:64-79 | The object loop computes the nearest hit and its `closest_t`. The hit record kept is that object's. |
| Tracing.Trace | main.cpp:60-116 | Past the cutoff the result is black and no draw is taken. Each level takes at most four draws. At most maxBounces + 1 - depth nested calls are made, so the recursion ends. |
| Tracing.TraceRay | main.cpp:60-116 | The step-by-step function (cutoff, scan loop, shading, recursive call) returns what `Trace` describes. |
| Tracing.ShadeStep | main.cpp:84-115 | The statements between the scan and the nested call make the choice `Decide` describes. |
| Tracing.Decide | main.cpp:91-115 | An early return takes at most one draw. A continuing path takes one to four draws: at most a roulette draw, a mix draw and two bounce draws. |
| Tracing.TraceMiss | main.cpp:81-82 | With no hit below 1e30 the result is black and consumes no draw. |
| Tracing.TraceHit | main.cpp:84-115 | Within the depth limit, the first nearest hit on object i is shaded with object i's material and hit record. |
| Tracing.AlbedoDebug | include/components/scene/scene.hpp:86-87 | In albedo debug mode a hit returns the albedo, with no draw and no recursion. |
| Tracing.RouletteExit | main.cpp:91-92 | Past the roulette depth, a draw at or above the largest albedo channel returns exactly the emission after one draw. |
| Tracing.DimExit | main.cpp:95-96 | A surviving path whose rescaled throughput has no channel ≥ 0.05 returns the emission without recursing. |
| Tracing.MatteBounce | main.cpp:98-103 | At a non-reflective material the path takes the cosine bounce. No mix draw is taken; it is built from the next two draws and weighted by the throughput. |
| Tracing.MixedBounce | main.cpp:104-115 | At a reflective material the mirror ray is traced exactly when the mix draw is below the reflectivity. Otherwise the path takes the diffuse bounce from the following two draws. |
| Tracing.OrientationsDiffer | main.cpp:89 | The two normal orientations agree unless the normal is perpendicular to the ray. There main.cpp flips it and the scene keeps it. |
| PathTracer.CameraSample | main.cpp:230-253 | One sample takes four camera draws and then traces from depth 0. It takes at most 4·34 further draws. |
| PathTracer.TraceSample | main.cpp:233-253 | The body of the sample loop computes `CameraSample`. |
| PathTracer.MainCallBound | main.cpp:58-62 | From depth d ≥ 0 at most 33 - d nested calls are made. Past depth 32 the result is black. |
| PathTracer.MainMatteBeforeRoulette | main.cpp:91-103 | Up to depth 5, a non-reflective, non-dim hit goes straight to the diffuse bounce with the albedo as weight. No roulette draw is taken. |
| PathTracer.MainRouletteExit | main.cpp:91-92 | From depth 6 to 32, a roulette draw ≥ the largest albedo channel returns exactly the emission. |
| Scenes.Scene.constructor | include/components/scene/scene.hpp:21-33 | A new scene has the default environment and no objects. |
| Scenes.Scene.AddObject | include/components/scene/scene.hpp:36-40 | Appends the object and returns its index, the old count. The count grows by one; earlier objects and the environment are unchanged. |
| Scenes.Scene.ObjectCount | include/components/scene/scene.hpp:42-45 | The count is the number of objects held; it is 0 exactly when the scene has none. |
| Scenes.Scene.TraceRay | include/components/scene/scene.hpp:57-133 | The scene's `trace_ray` is the shared integrator under the scene's policy, over its own objects. |
| Scenes.SceneCutoff | include/components/scene/scene.hpp:60 | Past `max_bounces` the result is black and no draw is taken. |
| Scenes.DefaultSettingsShowDepth | include/components/scene/scene.hpp:92-97 | Under the default settings (depth debug view) a hit returns the depth colour of the hit distance, with no draw. |
| Scenes.SceneAlbedoDebug | include/components/scene/scene.hpp:86-87 | In the albedo view a hit returns the albedo of the object hit. |
| Scenes.SceneRouletteExit | include/components/scene/scene.hpp:109-111 | From depth 5 on, a roulette draw ≥ the largest albedo channel returns exactly the emission. |
| Render.Partition | main.cpp:276-282 | Thread t gets the band [t·(h/n), t·(h/n) + h/n), and the last thread's band ends at h. The whole render uses these bands. |
| Render.BandBounds | main.cpp:276-282 | Every band lies within [0, h]. The first starts at 0, the last ends at h, and each band ends where the next begins. |
| Render.BandsOrdered | main.cpp:276-282 | Earlier bands end at or before later bands start, so no two bands overlap. |
| Render.BandOfHolds | main.cpp:276-282 | Every row 0 ≤ y < h lies in some band. |
| Render.BandOfCorrect | main.cpp:276-282 | Row y lies in band t if and only if t is its owner, so each row belongs to exactly one band. |
| Render.OffsetIsProduct | main.cpp:279 | The start of block i of `size` items is i·size. |
| Render.PixelSum | main.cpp:229-254 | Summing s samples consumes at least 4s draws. |
| Render.Stored | main.cpp:255-264 | The stored value always lies in [0,1]³. When the 64-sample average already does, the stored value is that average. |
| Render.SamplePixel | main.cpp:229-254 | The sample loop computes the sum of 64 camera samples and the engine position after them. |
| Render.RowRun | main.cpp:227-265 | Columns 0 to x-1 of a row store x values, each in [0,1]³. |
| Render.BandRun | main.cpp:225-265 | Rows start to y-1 store w·(y-start) values, each in [0,1]³. |
| Render.Bands | main.cpp:276-282 | The first t bands together store w·(rows they cover) values, each in [0,1]³. |
| Render.RenderPixel | main.cpp:228-264 | One pass of the x loop stores pixel x's clamped average through `at(x, y)`. The rest of the row is unchanged. |
| Render.RenderRow | main.cpp:227-265 | The x loop replaces exactly the row's w cells by the row's stored values. The engine position follows the row's draws. |
| Render.RenderBandRow | main.cpp:225-265 | One pass of the y loop appends row y to the cells the band has written. |
| Render.RenderRows | main.cpp:218-274 | `render_rows(start, end)` with its own engine seeded by `start` overwrites exactly the cells of rows start to end-1, and with that band's values. |
| Render.BandsNext | main.cpp:276-282 | The first t bands end where band t starts, and adding band t extends them by its rows. |
| Render.RenderBand | main.cpp:276-281 | Running worker t after workers 0 to t-1 extends the painted prefix by band t. |
| Render.RunWorkers | main.cpp:276-284 | After all n workers the image holds all n bands. |
| Render.BandsCover | main.cpp:276-282 | The n bands together cover the whole image. |
| Render.RowRunAt | main.cpp:227-264 | Column x' of a row holds pixel (x', y)'s stored value, sampled from where the earlier columns left the engine. |
| Render.BandRunAt | main.cpp:225-265 | Within a band, row y' sits at offset w·(y'-start) and holds that row's run, begun where the earlier rows left the engine. |
| Render.BandCell | main.cpp:225-264 | Within a band, cell (x, y) holds the clamped average of pixel (x, y)'s samples, taken from where the band's earlier pixels left the engine. |
| Render.ChunksStable | main.cpp:276-282 | Appending later chunks leaves every earlier cell as it was. |
| Render.BandsAreChunks | main.cpp:276-282 | The first t bands are band 0's values, then band 1's, up to band t-1's. |
| Render.BandsGrow | main.cpp:276-282 | Adding worker t's band keeps the earlier cells as a prefix. |
| Render.BandsStable | main.cpp:276-284 | Later workers do not change the cells of earlier bands. |
| Render.BandSlice | main.cpp:276-282 | Worker t writes row y of its band at offset w·y, with that band's values. |
| Render.BandsAt | main.cpp:276-284 | After the first t workers, a cell of an earlier band t' still holds band t''s value. |
| Render.BandsCell | main.cpp:225-284 | After all workers, cell (x, y) of a row of band t' holds pixel (x, y)'s clamped average from band t''s engine. |
| Render.RenderedCell | main.cpp:218-284 | In the final image, cell (x, y), the one `at(x, y)` addresses, holds the clamped average of pixel (x, y)'s samples, drawn from the engine seeded with the start of the band that holds row y. |
| Render.RenderImage | main.cpp:218-284 | After all workers finish: the texture keeps its dimensions; every cell is the value its band computed; every channel is in [0, 1]. |

## Left out

- Floating point: colours, distances and draws are exact reals. Rounding, NaN and infinities are not modelled. The constants 1e30f and 0.05f and the environment defaults 0.01f, 0.1f and 0.2f are written as the exact values of those floats.
- File I/O:
  - The encoder returns the byte sequence it would write. A failed open (returning `false`) is not modelled.
  - The decoder takes the file's bytes. A missing file (the exception in `bmp_to_texture`) is not modelled.
  - Where the source would use bytes past the end of the file, the model returns `Truncated`. A file that lacks only some of the last row's padding is read in full, as in the source, since no padding byte is used. In two cases the source behaves differently:
    - A header read that comes up short leaves the unread fields at their default initialisers (bmp.hpp:26-45). A file shorter than 54 bytes can therefore pass both checks; an empty file gives a 0×0 texture.
    - A row read that misses some of the row's pixel bytes fills only a prefix of the row buffer. The rest keeps the previous row's bytes, or, for the first row read, the zeros the buffer starts with. Every later read leaves the buffer as it is, and the source stores those bytes.
  - Where the source would throw from `new color[w*h]` or the row vector for a negative size, the model returns `AllocationFailed`. The encoder has by then already written the 54 header bytes to the file (bmp.hpp:69-72); that partly written file is not modelled.
  - The error strings are the `BmpError` constructors.
- 32-bit arithmetic: the header fields are reduced modulo 2³², as the C++ conversion does. These `int` products are unbounded integers, so their overflow is not modelled:
  - `row_padded * height` and `width * 3 + 3` in bmp.hpp;
  - `w * h` in `new color[w*h]` and the fill loop (texture.hpp:23,25);
  - `y * width + x` in `at` (texture.hpp:81).
  - A decoded header with biWidth = biHeight = 65536 already overflows `w * h`.
- BmpFormat.RoundTrip: stated only for dimensions in [0, 2³¹), where the signed 32-bit header fields hold them exactly; negative widths and heights are written and read back but not round-tripped.
- BmpFormat.EncodeHeader: stated for the same range of dimensions as RoundTrip.
- BmpFormat.ReencodeIsIdentity: stated for the same range of dimensions as RoundTrip.
- BmpFormat.Decode: a file shorter than 54 bytes, or one whose last row's pixel bytes extend past its end, is rejected with `Truncated`. The source instead decodes such a file from default or stale bytes, as described above.
- Threads: the workers run one after another. Each writes only its own rows and draws from its own engine, so the result is the same as any interleaving. `rows_done`, the mutex and the progress output are left out.
- `hardware_concurrency()` returning 0 makes main.cpp divide by zero. The model requires at least one worker.
- The random engine: `std::mt19937` and `uniform_real_distribution` are abstract. An engine is a stream of draws in [0, 1] per seed, since the float draws can round up to 1. The exact Mersenne Twister sequence is not modelled.
- Geometry: the triangle/sphere intersection, `r.at(t)`, dot products, `random_cosine_hemisphere` and the mirror direction are abstract functions in `Geometry`. The camera, field of view, aspect and lens sample together form one abstract function of the pixel and four draws.
- Tracing.Trace: the depth view's `sqrt(t / 1024)` and the normal view's colour are abstract functions of the hit. The model states which one is returned, not its value.
- The scene's `trace_ray` calls `randf()` and `random_cosine_hemisphere(nl)` without an engine argument; the engine behind them is not part of this model. The scene's integrator reads the same kind of draw stream as main.cpp's.
- The environment's fog and sky colours are stored but never read by any core operation. The model keeps them as data only.
- `unsafe_get_all_objects`, `get_all_objects`, the destructor and `luminance` are not modelled. The compound operators `+=` and `/=` are modelled as the pure `Add` and `Div` they equal.
- The commented-out exposure and gamma lines of `render_rows` are not modelled, and neither is the final `texture_to_bmp` call of `main`, which only chains two modelled operations.
- Render.RenderImage: the stored pixel function is a ghost parameter tied to the sample loop by `Samples`. The contract says which value each cell ends with, not in which order the writes happened.
- `spp`, the image size and `max_depth` are the constants of main.cpp (64, any size given, 32). The scene settings' `ssp` is carried in `RenderSettings` unused, as in the source.

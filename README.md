# ASCII donut renderer — a Dafny model

This project models the one algorithmic component of the landing page: the
`ASCIIDonut` renderer, which draws a rotating torus as 80 × 22 characters of
text, and the small clock shown in the hero section.

One render pass works in three steps.

- **Visibility resolver** (`raster.dfy`, module `Raster`). A frame starts with a
  character buffer of blanks and a depth buffer of zeros, one cell per canvas
  position. Each torus sample has integer screen coordinates `x`, `y`, an
  inverse depth `d` (larger is nearer) and an integer brightness `n`. The
  sample is written to cell `x + 80*y` only when it lies on the canvas and is
  strictly nearer than the depth stored there. The write stores its depth and
  its glyph. The frame is specified cell by cell, without reference to the
  update loop. A cell's depth is the largest of 0 and the depths of the samples
  that land on it (`MaxDepth`). Its glyph is that of the first sample to reach
  that depth, or a blank when no sample got above 0 (`FirstAt`,
  `ExpectedGlyph`). `RenderFrame` runs the array loop and is proved to produce
  exactly this.
- **Glyph mapper** (`glyphs.dfy`, module `Glyphs`). Brightness is clamped at 0
  and wrapped modulo 12 to index the palette `.,-~:;=!*531`.
- **Compositor** (`compositor.dfy`, module `Compositor`). The buffer is cut
  into 22 rows of 80 characters. Every non-blank glyph is wrapped in
  `<span style="color: #ffffff">…</span>`; blanks stay bare. The rows are
  joined with newlines. A decoder, `Unmarkup`, reads the rows back. The
  composed text is proved to decode to exactly the buffer's rows.

`donut.dfy` (module `Donut`) chains the three: the text of a frame decodes to
the rows of the frame's specification. `clock.dfy` (module `Clock`) models the
seconds counter `(prev + 1) % 60` and the `05:31:SS` clock text. `canvas.dfy`
holds the canvas size and `wrappers.dfy` an `Option` type.

The sample coordinates come from `Math.floor` in the source (floor, not
truncation toward zero). They are inputs to this model, so the difference does
not arise here. The canvas size is a pair of constants; no code path rejects a
zero-sized canvas, and none is modelled.

## Model

| member | source | states |
|---|---|---|
| Glyphs.GlyphIndex | app/page.tsx:227-228 | the palette index is in [0,12), is 0 for any brightness <= 0, and is congruent to the brightness modulo 12 otherwise |
| Glyphs.GlyphOf | app/page.tsx:202 | the drawn glyph is a palette character (never a blank or newline), is `.` for brightness <= 0, and is the palette entry itself for brightness 0..11 |
| Glyphs.GlyphWraps | app/page.tsx:227-228 | brightness past the end of the palette wraps around rather than saturating |
| Raster.CellOf | app/page.tsx:222 | an on-canvas sample's cell index is below 80*22 and its column and row are recovered by `% 80` and `/ 80` |
| Raster.MaxDepth | app/page.tsx:200-226 | a cell's final depth is at least the reset value 0, at least the depth of every sample landing on it, and when positive is attained by some sample |
| Raster.FirstAt | app/page.tsx:225 | finds the earliest sample landing on a cell at a given depth: that sample matches and no earlier one does |
| Raster.ExpectedGlyph | app/page.tsx:199-228 | a cell is blank exactly when no sample landed on it with positive depth; otherwise it holds a palette glyph |
| Raster.ExpectedFrame | app/page.tsx:199-200 | the character buffer is parallel to the depth buffer, with 80*22 cells each, and a cell is blank exactly where its depth is still the reset value 0 |
| Raster.FrameWinner | app/page.tsx:225-228 | every non-blank cell shows the glyph of a sample that landed on it at exactly the recorded depth, and no earlier sample reached the cell at that depth |
| Raster.DepthStep | app/page.tsx:225-226 | one more sample changes a cell's depth exactly when it lands there with a strictly larger depth, and then that depth is stored |
| Raster.GlyphStep | app/page.tsx:225-228 | one more sample replaces a cell's glyph exactly when it wins the strict depth test; an equal depth keeps the earlier glyph |
| Raster.DiscardedSample | app/page.tsx:225 | a sample off the canvas, or with depth <= 0, changes neither the depth nor the glyph of any cell |
| Raster.DepthMonotone | app/page.tsx:225-226 | within a frame a cell's depth never decreases as more samples arrive |
| Raster.DepthOrderIndependent | app/page.tsx:207-231 | the final depth of every cell is the same for any ordering of the same samples |
| Raster.IdleFrame | app/page.tsx:199-200 | if every sample falls off the canvas, every cell stays blank at depth 0 |
| Raster.NewFrame | app/page.tsx:197-200 | the fresh buffers have 80*22 cells, every glyph a blank and every depth 0 |
| Raster.Plot | app/page.tsx:222-229 | a sample that wins its cell sets that cell's depth and glyph and nothing else; any other sample leaves both buffers unchanged |
| Raster.RenderFrame | app/page.tsx:197-231 | after all samples, the buffers equal the per-cell specification: maximum depth and first nearest glyph |
| Compositor.Rows | app/page.tsx:234-238 | there are 22 rows of 80 characters, and row k column c is buffer cell 80*k + c |
| Compositor.RowsPartition | app/page.tsx:236 | the rows, concatenated in order, are the buffer |
| Compositor.SplitRows | app/page.tsx:234-238 | the slicing loop yields exactly the buffer's rows |
| Compositor.DecorateLine | app/page.tsx:241-249 | decorating a line without newlines introduces none |
| Compositor.DecorateBlanks | app/page.tsx:245 | blanks get no markup: a row of blanks is unchanged by decoration |
| Compositor.DecorateRoundTrip | app/page.tsx:242-249 | reading a decorated line back gives the original line |
| Compositor.MarkupRoundTrip | app/page.tsx:240-251 | for one or more newline-free lines, the decorated, newline-joined text decodes back to exactly those lines |
| Compositor.Compose | app/page.tsx:233-252 | the composed text of a newline-free buffer decodes back to the buffer's 22 rows |
| Donut.RenderText | app/page.tsx:194-253 | the text of a whole frame is the decorated, newline-joined rows of that frame's specification, and it decodes back to exactly those 22 rows |
| Clock.Tick | app/page.tsx:14 | the seconds value stays below 60, counts up by one, and wraps from 59 to 0 |
| Clock.SecondsAfterIsModulo | app/page.tsx:7-15 | starting from 0, after k ticks the counter shows k mod 60 |
| Clock.Decimal | app/page.tsx:32 | the decimal spelling is made of digits, one digit exactly below 10 and two exactly from 10 to 99 |
| Clock.DecimalRoundTrip | app/page.tsx:32 | the decimal spelling reads back as the number |
| Clock.PadStart | app/page.tsx:32 | the result is the longer of the input and the target length, ends with the input, and is filled in front |
| Clock.FormatTime | app/page.tsx:31-33 | the clock text starts with `05:31:` and is 8 characters long for values below 100 |
| Clock.TwoDigits | app/page.tsx:32 | below 100 the padded seconds are exactly the tens digit followed by the units digit |
| Clock.ClockFormat | app/page.tsx:31-33 | for every counter value, the text is `05:31:` followed by two digits that spell the seconds |
| Clock.FormatRoundTrip | app/page.tsx:31-33 | the clock text reads back as the seconds value it came from |

## Left out

- The torus sampling, rotation, perspective projection and shading (app/page.tsx:207-223) are floating-point trigonometry. A frame is modelled as an arbitrary sequence of samples, in the order the two nested loops produce them.
- Inverse depth is a real number. Floating-point rounding, NaN and infinities are not modelled; with the source's constants the projection denominator lies between 1 and 9, so neither NaN nor infinity arises there.
- The rotation angles `A += 0.07`, `B += 0.03` on a 50 ms timer (app/page.tsx:182-192) are float state driven by a timer, and are left out.
- The timers themselves (app/page.tsx:12-18, 185-192), the scroll listener (app/page.tsx:20-29), and the React effect lifecycle, including the `canvasRef` checks at lines 195 and 233, are host scheduling and DOM. They are left out.
- The scroll-driven scale and opacity (app/page.tsx:35-49) and the eased scroll (app/page.tsx:51-78) are float arithmetic on browser APIs. They are left out.
- Assigning the text to `innerHTML` (app/page.tsx:240) and all JSX markup are presentation. The model stops at the composed string.
- The colour choice `colors[Math.floor(Math.random() * colors.length)]` (app/page.tsx:246) always picks the palette's single entry, so the colour is the constant `#ffffff`. Randomness is not modelled.
- Clock.Tick: takes a non-negative counter. The counter starts at 0 and only ever passes through this update, so JavaScript's truncating `%` and Dafny's Euclidean `%` agree on every value it can hold.

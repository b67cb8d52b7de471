# PdfReader::ReadImage in Dafny

JPEGView shows PDF files by rendering their cover page. `PdfReader::ReadImage`
(`src/JPEGView/PDFWrapper.cpp`) does this through the PDFium engine. It loads the
document from memory and then loads page 0. It sizes the page to the screen, applies
two size ceilings and renders into an engine bitmap. Then it copies the bitmap row by
row into a tightly packed BGRA buffer, which it returns together with `width`,
`height`, `bpp` and an `outOfMemory` flag. The whole call holds a
process-wide lock. The first call also initialises the engine, once per process.

This project models the control flow around the engine calls and proves
properties of it. The engine is an oracle: `PdfWrapper.Engine` holds every
answer the engine gives during one call:
- whether the document loads, and its page count;
- whether page 0 loads;
- the pixel extent;
- whether the bitmap is created;
- the buffer pointer, the stride and the buffer's bytes;
- whether the output allocation succeeds.

The files:

- `size_guards.dfy` (module `SizeGuards`) holds the per-axis `MAX_IMAGE_DIMENSION`
  check, the total-pixel `MAX_IMAGE_PIXELS` check and the stride check.
- `row_copy.dfy` (module `RowCopy`) defines `Compact`, the packed image as a function
  of the source bytes, stride, row length and row count. It also holds the loop
  `CopyRows`, which writes that image into a destination array one `memcpy` per row
  (`CopyBytes`).
- `resource_log.dfy` (module `ResourceLog`) records each lock, unlock, engine
  initialisation and handle acquire/release as an event in a log. A state machine
  (`Step`, `Run`) accepts a log only when:
  - the lock is never taken twice;
  - initialisation happens once, under the lock;
  - handles are acquired under the lock, after initialisation;
  - handles are released newest first;
  - the lock is given back with nothing open.

  The lemmas there state what any accepted log of any sequence of calls satisfies.
- `pdf_wrapper.dfy` (module `PdfWrapper`) holds `Decide`, the outcome of one call
  as the first step whose check fails. It also holds `CallTrace`, the events of one
  call, the lemmas on both, and the class `PdfReader`:
  - the real field `initialized` is the function-local `static bool`;
  - a ghost `log` holds the event history of the process.

  One `PdfReader` object stands for the whole process: its `initialized` field and
  its log play the part of the process-wide statics. `InitAtMostOnce` and the other
  lemmas on the log are about that one reader's log. A second `PdfReader` object
  would start uninitialised; the model does not describe more than one.

  `ReadImage` takes the lock, initialises the engine on the first call, runs its body
  and gives the lock back. `RenderDocument` loads the document and page 0 and closes
  them again. `RenderPage` runs the size guards and creates and destroys the bitmap.
  It then allocates the output and copies the rows. In the source, each early return
  repeats the close calls and the unlock. In the model the same events happen in the
  same order, nested one level per handle.

## Model

| member | source | states |
|---|---|---|
| `SizeGuards.CheckSize` | src/JPEGView/PDFWrapper.cpp:93-105 | an axis above MAX_IMAGE_DIMENSION is reported first; otherwise `abs(width*height)` above MAX_IMAGE_PIXELS is reported; an extent that passes both, with non-negative sides, needs at most 4 * MAX_IMAGE_PIXELS output bytes |
| `SizeGuards.PassingExtentFitsInt32` | src/JPEGView/PDFWrapper.cpp:137-138 | when 4 * MAX_IMAGE_DIMENSION and 4 * MAX_IMAGE_PIXELS fit a signed 32-bit int, the row length `width*bpp` and `size = width*bpp*height` of a passing extent fit it too |
| `RowCopy.Compact` | src/JPEGView/PDFWrapper.cpp:150-154 | the packed image of `rows` rows of `rowBytes` bytes is exactly rows * rowBytes long |
| `RowCopy.CompactAt` | src/JPEGView/PDFWrapper.cpp:150-154 | byte x of row y of the packed image (offset y*rowBytes + x, inside the buffer) is source byte y*stride + x (inside the source) |
| `RowCopy.CompactWithoutPadding` | src/JPEGView/PDFWrapper.cpp:148-154 | when the stride equals the row length, the packed image is the source's first rows * rowBytes bytes, as a single flat copy would give |
| `RowCopy.CopyBytes` | src/JPEGView/PDFWrapper.cpp:151-153 | one memcpy: the n source bytes from s land at d, and the destination bytes before d and after d + n are unchanged |
| `RowCopy.CopyRows` | src/JPEGView/PDFWrapper.cpp:150-154 | after the loop, the destination of width*4*height bytes is exactly `Compact` of the source; only the destination is written, and only inside its bounds |
| `ResourceLog.RunConsistent` | src/JPEGView/PDFWrapper.cpp:51-61 | in every accepted log, the engine is initialised exactly when an init event occurred, and that event occurred once; the lock depth is 1 exactly while the lock is held; the lock is free only with no handle open; for each handle, acquisitions minus releases is 1 exactly while it is live |
| `ResourceLog.InitAtMostOnce` | src/JPEGView/PDFWrapper.cpp:54-58 | across any sequence of calls the engine is initialised at most once |
| `ResourceLog.InsideCriticalSection` | src/JPEGView/PDFWrapper.cpp:51-61 | every event but taking the lock happens with the lock taken exactly once; taking the lock happens with it free |
| `ResourceLog.InitBeforeAnyHandle` | src/JPEGView/PDFWrapper.cpp:55-61 | no document, page or bitmap is acquired before the engine has been initialised |
| `ResourceLog.IdleMeansBalanced` | src/JPEGView/PDFWrapper.cpp:156-161 | between calls every handle has been released as often as acquired and the lock given back as often as taken |
| `ResourceLog.BracketCounts` | src/JPEGView/PDFWrapper.cpp:156-159 | the handle events of a call acquire and release each of its distinct handles exactly once and touch neither the lock nor the initialisation |
| `ResourceLog.BracketRestores` | src/JPEGView/PDFWrapper.cpp:61-159 | opening handles in order and closing them newest first, under the lock, leaves the discipline where it started |
| `PdfWrapper.PackedImage` | src/JPEGView/PDFWrapper.cpp:148-154 | the image a successful call returns has exactly width * 4 * height bytes |
| `PdfWrapper.AxisLimitIsPlainFailure` | src/JPEGView/PDFWrapper.cpp:93-98 | with page 0 loaded, an axis above MAX_IMAGE_DIMENSION gives a failure without outOfMemory, and no bitmap is created |
| `PdfWrapper.OutOfMemoryExactly` | src/JPEGView/PDFWrapper.cpp:99-146 | outOfMemory is reported exactly when page 0 loaded, both axes are within the limit, and then one of: the pixel count exceeds MAX_IMAGE_PIXELS; the bitmap cannot be created; the buffer and stride pass but the output allocation fails |
| `PdfWrapper.PlainFailureExactly` | src/JPEGView/PDFWrapper.cpp:61-134 | a failure without outOfMemory happens exactly on a load failure, a page count below 1, a page-0 load failure, an axis over the limit, or a null buffer or short stride in a created bitmap |
| `PdfWrapper.RenderedExactly` | src/JPEGView/PDFWrapper.cpp:61-163 | an image is returned exactly when every load, guard, allocation and buffer check succeeds |
| `PdfWrapper.CallTraceShape` | src/JPEGView/PDFWrapper.cpp:51-161 | one call takes the lock first and gives it back last, each exactly once; it initialises the engine exactly when that had not been done; it acquires and releases each handle it reached exactly once |
| `PdfWrapper.CallTraceAccepted` | src/JPEGView/PDFWrapper.cpp:51-161 | from any idle state, the events of one call, whatever its outcome, obey the lock/init/handle discipline; afterwards the engine is initialised and nothing stays open |
| `PdfWrapper.CallKeepsDiscipline` | src/JPEGView/PDFWrapper.cpp:51-161 | appending one call to an accepted idle log gives an accepted idle log |
| `PdfWrapper.PdfReader.constructor` | src/JPEGView/PDFWrapper.cpp:54 | at process start the engine is not initialised and nothing has happened |
| `PdfWrapper.PdfReader.ReadImage` | src/JPEGView/PDFWrapper.cpp:41-164 | bpp is 4 on every path. The result is null exactly on the failure outcomes. outOfMemory is set exactly on the out-of-memory outcomes. width and height stay 0 until page 0 is loaded and then keep the computed extent, on later failures too. On success the buffer is fresh, holds width*4*height bytes and equals the packed engine rows. The log grows by exactly this call's events, and the whole log still obeys the discipline |
| `PdfWrapper.PdfReader.RenderDocument` | src/JPEGView/PDFWrapper.cpp:61-159 | with the lock held, opens the document and then page 0 and closes them newest first; it stops after closing the document when the page count is below 1 or page 0 does not load |
| `PdfWrapper.PdfReader.RenderPage` | src/JPEGView/PDFWrapper.cpp:92-154 | with page 0 open, applies the size guards, creates and destroys the bitmap, checks buffer and stride, allocates the output and copies the rows; no bitmap event happens when a guard or the bitmap creation fails |

## Left out

- The PDFium calls themselves are not modelled. This covers loading, page count, page
  load, page size, bitmap creation, the white fill, rendering with
  `FPDF_ANNOT | FPDF_LCD_TEXT`, buffer, stride, and the close and destroy calls. Their
  results enter as the fields of `Engine`, and their effects on handles enter as log
  events. The rendered pixel values and the fill colour come from the engine and are
  not modelled.
- `EngineBehaves` is assumed and not checked. It says that a created bitmap has a
  positive width and height. It also says that when the buffer and stride pass the
  check, the buffer holds `(height - 1) * stride + width * 4` bytes. PDFium rejects
  non-positive bitmap sizes. The source relies on both facts without checking them.
- `CalculateOptimalDPI` and the `(int)((pt / 72.0) * dpi)` conversions are left out.
  They are double-precision arithmetic and read the screen size from
  `GetSystemMetrics`. The pixel extent reaches the model as two integers.
- `CPdfiumLock` is a Win32 critical section. It becomes the `Lock` and `Unlock` events
  and the `held` flag of the monitor. Real mutual exclusion between threads is
  concurrency and is not modelled.
- The values of MAX_IMAGE_DIMENSION and MAX_IMAGE_PIXELS come from `MaxImageDef.h`,
  which is not part of this model. They are the parameter `Limits`.
- `CheckSize` compares exact integers where the source compares
  `abs((double)width * height)`. The two agree when MAX_IMAGE_PIXELS is below 2^53,
  because rounding to double preserves the comparison with an exactly representable
  bound.
- `ReadImage` does not model the 32-bit `int` arithmetic of `width * bpp`,
  `size = width * bpp * height` and the row offsets. The model uses unbounded
  integers. `PassingExtentFitsInt32` gives the condition on the two ceilings under
  which `width * bpp`, `size` and the destination offset `y * width * bpp` do not
  overflow.
- `PassingExtentFitsInt32` does not cover the source offset `y * stride`. That
  offset depends on the stride the engine reports, which neither ceiling bounds,
  so the model gives no condition under which it fits a 32-bit `int`.
- `ReadImage` does not model the input buffer `pBuffer` and `fileSize`; only the
  engine's verdict on them, `documentLoads`, is modelled. In the model, the bitmap
  memory is a fresh array holding the engine's bytes. The output buffer is a fresh
  array. Raw pointers and `new (std::nothrow)` are not modelled beyond
  `outputAllocates`.
- `src/JPEGView/PDFWrapper.h` only declares the class, and the `WINXP` build, where
  this code is compiled out, is not modelled.

/** PdfReader::ReadImage: render page 0 of a PDF held in memory into a tightly
    packed BGRA buffer, under the process-wide engine lock. The engine itself is an
    oracle: every answer it gives on one call is a field of `Engine`. */
module PdfWrapper {
  import opened ResourceLog
  import opened SizeGuards
  import opened RowCopy

  /** The engine's answers on one call, in the order ReadImage asks for them. */
  datatype Engine = Engine(
    documentLoads: bool,     // FPDF_LoadMemDocument returned a document
    pageCount: int,          // FPDF_GetPageCount
    pageLoads: bool,         // FPDF_LoadPage(doc, 0) returned a page
    width: int,              // pixel width from the page size and the optimal DPI
    height: int,             // pixel height, likewise
    bitmapCreated: bool,     // FPDFBitmap_Create returned a bitmap
    bufferPresent: bool,     // FPDFBitmap_GetBuffer returned a pointer
    stride: int,             // FPDFBitmap_GetStride
    buffer: seq<byte>,       // the rendered bytes behind that pointer
    outputAllocates: bool)   // new (std::nothrow) unsigned char[size] succeeded

  /** What ReadImage relies on without checking: a bitmap the engine creates has a
      positive extent, and when its buffer and stride pass the check the buffer
      holds every row the copy reads. */
  predicate EngineBehaves(e: Engine) {
    e.bitmapCreated ==>
      e.width >= 1 && e.height >= 1 &&
      (e.bufferPresent && StrideSufficient(e.stride, e.width) ==>
        (e.height - 1) * e.stride + e.width * BytesPerPixel <= |e.buffer|)
  }

  /** Why a call returned no image. */
  datatype Failure =
    | LoadFailed            // the document could not be loaded
    | NoPages               // the document has no page
    | PageLoadFailed        // page 0 could not be loaded
    | DimensionTooLarge     // one axis exceeds MAX_IMAGE_DIMENSION
    | PixelCountTooLarge    // width * height exceeds MAX_IMAGE_PIXELS
    | BitmapAllocFailed     // the engine could not create the bitmap
    | RenderFailed          // no buffer, or a stride shorter than a packed row
    | OutputAllocFailed     // the output buffer could not be allocated

  datatype Outcome = Rendered | Failed(reason: Failure)

  /** The engine produced a bitmap whose buffer and stride pass the check. */
  predicate UsableBitmap(e: Engine) {
    e.bitmapCreated && e.bufferPresent && StrideSufficient(e.stride, e.width)
  }

  /** The image a successful call returns: the engine's rows, packed. */
  function PackedImage(e: Engine): (r: seq<byte>)
    requires EngineBehaves(e) && UsableBitmap(e)
    ensures |r| == e.width * BytesPerPixel * e.height
  {
    Compact(e.buffer, e.stride, e.width * BytesPerPixel, e.height)
  }

  /** The failures reported with outOfMemory set. */
  predicate IsOutOfMemory(o: Outcome) {
    o.Failed? && o.reason in {PixelCountTooLarge, BitmapAllocFailed, OutputAllocFailed}
  }

  /** The call gets as far as computing the pixel extent. */
  predicate ReachesSizing(e: Engine) {
    e.documentLoads && e.pageCount >= 1 && e.pageLoads
  }

  /** The outcome of one call: the first step whose check fails. */
  function Decide(e: Engine, lim: Limits): Outcome {
    if !e.documentLoads then Failed(LoadFailed)
    else if e.pageCount < 1 then Failed(NoPages)
    else if !e.pageLoads then Failed(PageLoadFailed)
    else
      match CheckSize(e.width, e.height, lim)
      case AxisExceeded => Failed(DimensionTooLarge)
      case PixelsExceeded => Failed(PixelCountTooLarge)
      case SizeOk =>
        if !e.bitmapCreated then Failed(BitmapAllocFailed)
        else if !e.bufferPresent || !StrideSufficient(e.stride, e.width) then Failed(RenderFailed)
        else if !e.outputAllocates then Failed(OutputAllocFailed)
        else Rendered
  }

  /** The handles a call has acquired when it reaches the given outcome, oldest first. */
  function Acquired(o: Outcome): seq<Handle> {
    match o
    case Rendered => [Document, Page, Bitmap]
    case Failed(f) =>
      match f
      case LoadFailed => []
      case NoPages => [Document]
      case PageLoadFailed => [Document]
      case DimensionTooLarge => [Document, Page]
      case PixelCountTooLarge => [Document, Page]
      case BitmapAllocFailed => [Document, Page]
      case RenderFailed => [Document, Page, Bitmap]
      case OutputAllocFailed => [Document, Page, Bitmap]
  }

  /** The events of one call: take the lock, initialise the engine unless that was
      done before, open and close the handles, give the lock back. */
  function CallTrace(o: Outcome, initialized: bool): seq<Event> {
    [Lock] + (if initialized then [] else [InitLibrary]) + Bracket(Acquired(o)) + [Unlock]
  }

  /** The out-parameters width and height are reset to 0 on entry and only
      overwritten once page 0 is loaded. */
  function ReportedExtent(e: Engine): (int, int) {
    if ReachesSizing(e) then (e.width, e.height) else (0, 0)
  }

  // ---------------------------------------------------------------------------
  // The outcome taxonomy, stated on the engine's answers

  /** A per-axis excess is a plain failure, and no bitmap is created. */
  lemma AxisLimitIsPlainFailure(e: Engine, lim: Limits, initialized: bool)
    requires ReachesSizing(e)
    requires e.width > lim.maxDimension || e.height > lim.maxDimension
    ensures Decide(e, lim) == Failed(DimensionTooLarge)
    ensures !IsOutOfMemory(Decide(e, lim))
    ensures Acquire(Bitmap) !in CallTrace(Decide(e, lim), initialized)
  {
    assert Bracket([Page]) == [Acquire(Page), Release(Page)];
    assert Bracket([Document, Page]) == [Acquire(Document)] + Bracket([Page]) + [Release(Document)];
  }

  /** outOfMemory is reported exactly for an over-large pixel count within the
      per-axis limits, a failed bitmap, or a failed output allocation. */
  lemma OutOfMemoryExactly(e: Engine, lim: Limits)
    ensures IsOutOfMemory(Decide(e, lim)) <==>
      ReachesSizing(e) && e.width <= lim.maxDimension && e.height <= lim.maxDimension &&
      (Abs(e.width * e.height) > lim.maxPixels || !e.bitmapCreated ||
       (e.bufferPresent && StrideSufficient(e.stride, e.width) && !e.outputAllocates))
  {
  }

  /** A failure without outOfMemory is exactly a load failure, an empty document,
      a page that does not load, an axis over the limit, or an unusable buffer. */
  lemma PlainFailureExactly(e: Engine, lim: Limits)
    ensures (Decide(e, lim).Failed? && !IsOutOfMemory(Decide(e, lim))) <==>
      !e.documentLoads || e.pageCount < 1 || !e.pageLoads ||
      e.width > lim.maxDimension || e.height > lim.maxDimension ||
      (Abs(e.width * e.height) <= lim.maxPixels && e.bitmapCreated &&
       (!e.bufferPresent || !StrideSufficient(e.stride, e.width)))
  {
  }

  /** An image is returned exactly when every step succeeds. */
  lemma RenderedExactly(e: Engine, lim: Limits)
    ensures Decide(e, lim) == Rendered <==>
      ReachesSizing(e) && CheckSize(e.width, e.height, lim) == SizeOk &&
      e.bitmapCreated && e.bufferPresent && StrideSufficient(e.stride, e.width) && e.outputAllocates
  {
  }

  // ---------------------------------------------------------------------------
  // The resource discipline of one call

  /** Every acquisition list is acquirable from nothing, in order. */
  lemma AcquiredInOrder(o: Outcome)
    ensures Acquirable([], Acquired(o))
  {
    assert Acquirable([Document, Page], [Bitmap]);
    assert Acquirable([Document], [Page, Bitmap]);
    assert Acquirable([Document], [Page]);
  }

  /** One call, from any idle state, satisfies the discipline and ends idle with
      the engine initialised: the lock is taken and given back once, every handle
      is released in reverse order of acquisition, and nothing stays open. */
  lemma {:induction false} CallTraceAccepted(m: Monitor, o: Outcome)
    requires Idle(m)
    ensures Run(m, CallTrace(o, m.inited)) == Some(Monitor(false, true, []))
  {
    var locked := m.(held := true);
    var ready := locked.(inited := true);
    var init: seq<Event> := if m.inited then [] else [InitLibrary];
    RunSingle(m, Lock);
    RunSingle(locked, InitLibrary);
    assert Run(locked, init) == Some(ready) by {
      if m.inited { assert ready == locked; }
    }
    RunAppend(m, [Lock], init);
    AcquiredInOrder(o);
    BracketRestores(ready, Acquired(o));
    RunAppend(m, [Lock] + init, Bracket(Acquired(o)));
    RunSingle(ready, Unlock);
    RunAppend(m, [Lock] + init + Bracket(Acquired(o)), [Unlock]);
  }

  /** Each call takes and gives back the lock exactly once, first and last, and
      initialises the engine exactly when it had not been initialised before. */
  lemma CallTraceShape(o: Outcome, initialized: bool)
    ensures CallTrace(o, initialized)[0] == Lock
    ensures CallTrace(o, initialized)[|CallTrace(o, initialized)| - 1] == Unlock
    ensures multiset(CallTrace(o, initialized))[Lock] == 1
    ensures multiset(CallTrace(o, initialized))[Unlock] == 1
    ensures multiset(CallTrace(o, initialized))[InitLibrary] == if initialized then 0 else 1
    ensures forall h: Handle :: multiset(CallTrace(o, initialized))[Acquire(h)] == (if h in Acquired(o) then 1 else 0)
    ensures forall h: Handle :: multiset(CallTrace(o, initialized))[Release(h)] == (if h in Acquired(o) then 1 else 0)
  {
    var init: seq<Event> := if initialized then [] else [InitLibrary];
    var b := Bracket(Acquired(o));
    AcquiredDistinct(o);
    BracketCounts(Acquired(o));
    WrappedCounts(init, b, CallTrace(o, initialized));
  }

  lemma AcquiredDistinct(o: Outcome)
    ensures Distinct(Acquired(o))
  {
  }

  lemma WrappedCounts(init: seq<Event>, b: seq<Event>, t: seq<Event>)
    requires init == [] || init == [InitLibrary]
    requires t == [Lock] + init + b + [Unlock]
    ensures t[0] == Lock && t[|t| - 1] == Unlock
    ensures multiset(t)[Lock] == multiset(b)[Lock] + 1
    ensures multiset(t)[Unlock] == multiset(b)[Unlock] + 1
    ensures multiset(t)[InitLibrary] == multiset(b)[InitLibrary] + |init|
    ensures forall h: Handle :: multiset(t)[Acquire(h)] == multiset(b)[Acquire(h)]
    ensures forall h: Handle :: multiset(t)[Release(h)] == multiset(b)[Release(h)]
  {
    assert multiset(t) == multiset{Lock} + multiset(init) + multiset(b) + multiset{Unlock};
  }

  /** The bitmap events of a call that got as far as the size guards. */
  function BitmapEvents(o: Outcome): seq<Event> {
    if Bitmap in Acquired(o) then [Acquire(Bitmap), Release(Bitmap)] else []
  }

  lemma BracketOfDocument(o: Outcome)
    requires o == Failed(NoPages) || o == Failed(PageLoadFailed)
    ensures Bracket(Acquired(o)) == [Acquire(Document), Release(Document)]
  {
    assert Bracket([Document]) == [Acquire(Document)] + Bracket([]) + [Release(Document)];
  }

  lemma BracketOfPage(o: Outcome)
    requires Document in Acquired(o) && Page in Acquired(o)
    ensures Bracket(Acquired(o)) ==
      [Acquire(Document), Acquire(Page)] + BitmapEvents(o) + [Release(Page), Release(Document)]
  {
    assert Bracket([Bitmap]) == [Acquire(Bitmap), Release(Bitmap)];
    assert Bracket([Page]) == [Acquire(Page), Release(Page)];
    assert Bracket([Page, Bitmap]) == [Acquire(Page)] + Bracket([Bitmap]) + [Release(Page)];
    assert Bracket([Document, Page]) == [Acquire(Document)] + Bracket([Page]) + [Release(Document)];
    assert Bracket([Document, Page, Bitmap]) == [Acquire(Document)] + Bracket([Page, Bitmap]) + [Release(Document)];
  }

  lemma AppendCallTrace(before: seq<Event>, o: Outcome, initialized: bool)
    ensures before + [Lock] + (if initialized then [] else [InitLibrary]) + Bracket(Acquired(o)) + [Unlock]
         == before + CallTrace(o, initialized)
  {
  }

  /** Appending one call to a log that obeys the discipline and is idle gives a
      log that obeys it, is idle, and has the engine initialised. */
  lemma CallKeepsDiscipline(log: seq<Event>, o: Outcome, initialized: bool)
    requires Run(Start, log) == Some(Monitor(false, initialized, []))
    ensures Run(Start, log + CallTrace(o, initialized)) == Some(Monitor(false, true, []))
  {
    RunAppend(Start, log, CallTrace(o, initialized));
    CallTraceAccepted(Run(Start, log).value, o);
  }

  // ---------------------------------------------------------------------------
  // The reader, with the state ReadImage keeps across calls

  /** The state of PdfReader that outlives a call: the static `initialized` flag,
      and, as ghost state, the lock and the log of every lock, init and handle
      event of the process. */
  class PdfReader {
    var initialized: bool
    ghost var log: seq<Event>

    /** Between calls the whole log obeys the discipline, the lock is free, no
        handle is open, and the flag says whether the engine was initialised. */
    ghost predicate Valid()
      reads this
    {
      Run(Start, log) == Some(Monitor(false, initialized, []))
    }

    constructor ()
      ensures Valid() && !initialized && log == []
    {
      initialized := false;
      log := [];
    }

    /** Records one lock, init or handle event. */
    ghost method Emit(ev: Event)
      modifies this`log
      ensures log == old(log) + [ev]
    {
      log := log + [ev];
    }

    /** ReadImage with the engine's answers as input. The whole body runs under
        the lock, and the engine is initialised on the first call only. */
    method ReadImage(e: Engine, lim: Limits)
      returns (pixels: array?<byte>, width: int, height: int, bpp: int, outOfMemory: bool)
      requires Valid()
      requires EngineBehaves(e)
      modifies this
      ensures Valid() && initialized
      ensures log == old(log) + CallTrace(Decide(e, lim), old(initialized))
      ensures bpp == BytesPerPixel
      ensures (pixels == null) == Decide(e, lim).Failed?
      ensures outOfMemory == IsOutOfMemory(Decide(e, lim))
      ensures (width, height) == ReportedExtent(e)
      ensures pixels != null ==>
        fresh(pixels) && Decide(e, lim) == Rendered &&
        pixels.Length == width * BytesPerPixel * height && pixels[..] == PackedImage(e)
    {
      ghost var before, wasInitialized := log, initialized;
      ghost var initEvents: seq<Event> := if initialized then [] else [InitLibrary];
      bpp := BytesPerPixel;

      Emit(Lock);
      if !initialized {
        Emit(InitLibrary);
        initialized := true;
      }
      ghost var entered := log;
      assert entered == before + [Lock] + initEvents;
      pixels, width, height, outOfMemory := RenderDocument(e, lim);
      Emit(Unlock);

      AppendCallTrace(before, Decide(e, lim), wasInitialized);
      Conclude(before, Decide(e, lim), wasInitialized);
    }

    /** The call's events have been appended to a log that obeyed the discipline
        and was idle: the object is valid again. */
    ghost method Conclude(before: seq<Event>, o: Outcome, wasInitialized: bool)
      requires Run(Start, before) == Some(Monitor(false, wasInitialized, []))
      requires log == before + CallTrace(o, wasInitialized)
      requires initialized
      ensures Valid()
    {
      CallKeepsDiscipline(before, o, wasInitialized);
    }

    /** The part of ReadImage between taking and giving back the lock: load the
        document and page 0, render, and close what was opened, newest first. An
        exit before page 0 is loaded leaves width and height at 0. */
    method RenderDocument(e: Engine, lim: Limits)
      returns (pixels: array?<byte>, width: int, height: int, outOfMemory: bool)
      requires EngineBehaves(e)
      modifies this`log
      ensures log == old(log) + Bracket(Acquired(Decide(e, lim)))
      ensures (pixels == null) == Decide(e, lim).Failed?
      ensures outOfMemory == IsOutOfMemory(Decide(e, lim))
      ensures (width, height) == ReportedExtent(e)
      ensures pixels != null ==>
        fresh(pixels) && Decide(e, lim) == Rendered &&
        pixels.Length == width * BytesPerPixel * height && pixels[..] == PackedImage(e)
    {
      ghost var o := Decide(e, lim);
      pixels, width, height, outOfMemory := null, 0, 0, false;

      if !e.documentLoads {
        assert Bracket(Acquired(o)) == [];
        return;
      }
      Emit(Acquire(Document));

      if e.pageCount < 1 {
        Emit(Release(Document));
        BracketOfDocument(o);
        return;
      }

      if !e.pageLoads {
        Emit(Release(Document));
        BracketOfDocument(o);
        return;
      }
      Emit(Acquire(Page));

      width, height := e.width, e.height;
      pixels, outOfMemory := RenderPage(e, lim);

      Emit(Release(Page));
      Emit(Release(Document));
      BracketOfPage(o);
    }

    /** The part of ReadImage that runs with page 0 open: the size guards, the
        bitmap, the buffer check, the output allocation and the row copy. It
        destroys the bitmap it created; page and document are closed by the caller. */
    method RenderPage(e: Engine, lim: Limits) returns (pixels: array?<byte>, outOfMemory: bool)
      requires ReachesSizing(e)
      requires EngineBehaves(e)
      modifies this`log
      ensures log == old(log) + BitmapEvents(Decide(e, lim))
      ensures (pixels == null) == Decide(e, lim).Failed?
      ensures outOfMemory == IsOutOfMemory(Decide(e, lim))
      ensures pixels != null ==>
        fresh(pixels) && Decide(e, lim) == Rendered &&
        pixels.Length == e.width * BytesPerPixel * e.height && pixels[..] == PackedImage(e)
    {
      var width, height, bpp := e.width, e.height, BytesPerPixel;
      pixels, outOfMemory := null, false;

      var verdict := CheckSize(width, height, lim);
      if verdict == AxisExceeded {
        return;
      }
      if verdict == PixelsExceeded {
        outOfMemory := true;
        return;
      }

      if !e.bitmapCreated {
        outOfMemory := true;
        return;
      }
      Emit(Acquire(Bitmap));

      if !e.bufferPresent || e.stride < width * bpp {
        Emit(Release(Bitmap));
        return;
      }
      var source := new byte[|e.buffer|](i requires 0 <= i < |e.buffer| => e.buffer[i]);

      var size := width * bpp * height;
      if !e.outputAllocates {
        outOfMemory := true;
        Emit(Release(Bitmap));
        return;
      }
      var data := new byte[size];

      assert source[..] == e.buffer;
      CopyRows(source, e.stride, width, height, data);

      Emit(Release(Bitmap));
      pixels := data;
    }
  }
}

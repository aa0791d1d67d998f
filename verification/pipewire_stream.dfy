/** `src/pipewire_stream.rs`: the capture session and its worker.

    The worker drains the stream's buffer queue on every `process`
    callback, keeps only the newest buffer, imports it (DMA-BUF planes) or
    takes its mapped bytes, swaps red and blue in every four-byte pixel and
    hands the frame to the consumer.  Before connecting it offers four pixel
    formats with the modifiers the driver can import.  The session object
    starts the worker and stops it with a `Stop` command.

    The PipeWire loop, the stream object and the channels are not modelled
    as code: what they deliver (buffer queues, commands, whether the frame
    receiver is still open, whether the worker thread ended cleanly) is an
    input.
 */
module PipewireStream {
  import opened Wrappers
  import opened Ints
  import opened DriverCalls
  import opened EglExt
  import opened EglDmaBuf

  // ---------------------------------------------------------------------
  // Swapping red and blue

  /** The byte that lands at index `k`: the first and third byte of each
      four-byte group trade places, the others stay. */
  function SwapPartner(k: nat): nat {
    if k % 4 == 0 then k + 2 else if k % 4 == 2 then k - 2 else k
  }

  /** A frame length the swap can walk without indexing past the end: the
      last group, if partial, still has its third byte. */
  predicate SwapFits(n: nat) {
    n % 4 == 0 || n % 4 == 3
  }

  /** The swap, byte by byte: every byte comes from its swap partner. */
  function SwapRedBlue<T>(frame: seq<T>): (r: seq<T>)
    requires SwapFits(|frame|)
    ensures |r| == |frame|
  {
    seq(|frame|, k requires 0 <= k < |frame| => frame[SwapPartner(k)])
  }

  /** The swap read as the source's walk, one group of four at a time: the
      first group has its first and third bytes exchanged, the rest of the
      frame is swapped the same way, and a trailing group of three is
      reversed. */
  lemma SwapGroups<T>(frame: seq<T>)
    requires SwapFits(|frame|) && 0 < |frame|
    ensures |frame| == 3 ==> SwapRedBlue(frame) == [frame[2], frame[1], frame[0]]
    ensures |frame| >= 4 ==>
      (SwapFits(|frame| - 4) && SwapRedBlue(frame) == [frame[2], frame[1], frame[0], frame[3]] + SwapRedBlue(frame[4..]))
  {
    var whole := SwapRedBlue(frame);
    if |frame| >= 4 {
      var rest := SwapRedBlue(frame[4..]);
      var walked := [frame[2], frame[1], frame[0], frame[3]] + rest;
      forall k | 0 <= k < |frame| ensures whole[k] == walked[k] {
        if k >= 4 {
          assert SwapPartner(k) == SwapPartner(k - 4) + 4;
        }
      }
      assert whole == walked;
    } else {
      assert whole == [frame[2], frame[1], frame[0]];
    }
  }

  /** The partners within the group starting at `i`. */
  lemma GroupPartners(i: nat)
    requires i % 4 == 0
    ensures SwapPartner(i) == i + 2 && SwapPartner(i + 1) == i + 1
    ensures SwapPartner(i + 2) == i && SwapPartner(i + 3) == i + 3
  {
  }

  /** Two bytes that trade places trade back. */
  lemma SwapPartnerInvolutive(k: nat)
    ensures SwapPartner(SwapPartner(k)) == k
  {
  }

  /** The swap walks the frame with an index that steps by four; it reaches
      the end without an out-of-bounds read exactly when `SwapFits`. */
  lemma SwapFitsExactly(n: nat)
    ensures SwapFits(n) <==> forall i :: 0 <= i < n && i % 4 == 0 ==> i + 2 < n
  {
    if !SwapFits(n) {
      var last := n - n % 4;
      assert last % 4 == 0 && last < n && last + 2 >= n;
    }
  }

  /** Swapping twice gives the frame back. */
  lemma SwapInvolution<T>(frame: seq<T>)
    requires SwapFits(|frame|)
    ensures SwapRedBlue(SwapRedBlue(frame)) == frame
  {
    var once := SwapRedBlue(frame);
    var twice := SwapRedBlue(once);
    forall k | 0 <= k < |frame| ensures twice[k] == frame[k] {
      SwapPartnerInvolutive(k);
    }
  }

  /** `convert_bgr_to_rgb` on the frame's bytes, in place.  A length that
      leaves a group with fewer than three bytes panics when the third byte
      is read. */
  method ConvertBgrToRgb(frame: seq<u8>) returns (r: Outcome<seq<u8>, ()>)
    ensures r.Panic? <==> !SwapFits(|frame|)
    ensures r.Panic? ==> r.abort == IndexOutOfBounds
    ensures r.Ok? ==> SwapFits(|frame|) && r.value == SwapRedBlue(frame)
    ensures !r.Err?
  {
    var bytes := frame;
    var i := 0;
    while i < |bytes|
      invariant |bytes| == |frame|
      invariant i % 4 == 0
      invariant i == 0 || i < |frame| + 2
      invariant forall k :: 0 <= k < |frame| && k < i ==> SwapPartner(k) < |frame| && bytes[k] == frame[SwapPartner(k)]
      invariant forall k :: i <= k < |frame| ==> bytes[k] == frame[k]
      decreases |frame| - i
    {
      if i + 2 >= |bytes| {
        return Panic(IndexOutOfBounds);
      }
      SwapTurn(frame, bytes, i);
      var red := bytes[i];
      bytes := bytes[i := bytes[i + 2]];
      bytes := bytes[i + 2 := red];
      i := i + 4;
    }
    assert SwapFits(|frame|);
    var swapped := SwapRedBlue(frame);
    assert bytes == swapped by {
      forall k | 0 <= k < |frame| ensures bytes[k] == swapped[k] {
      }
    }
    r := Ok(bytes);
  }

  /** One turn of the loop: exchanging the first and third byte of the
      group at `i` extends the swapped prefix by that group. */
  lemma SwapTurn(frame: seq<u8>, bytes: seq<u8>, i: nat)
    requires |bytes| == |frame| && i % 4 == 0 && i + 2 < |frame|
    requires forall k :: 0 <= k < |frame| && k < i ==> SwapPartner(k) < |frame| && bytes[k] == frame[SwapPartner(k)]
    requires forall k :: i <= k < |frame| ==> bytes[k] == frame[k]
    ensures var next := bytes[i := bytes[i + 2]][i + 2 := bytes[i]];
      && (forall k :: 0 <= k < |frame| && k < i + 4 ==> SwapPartner(k) < |frame| && next[k] == frame[SwapPartner(k)])
      && (forall k :: i + 4 <= k < |frame| ==> next[k] == frame[k])
  {
    GroupPartners(i);
  }

  /** What the consumer receives after the swap, for each format offered
      and read back in its own GL format: RGBA byte order comes out exactly
      for the blue-first formats, while red-first streams arrive with red
      and blue exchanged. */
  lemma SwapYieldsRgbaForBlueFirst(format: VideoFormat)
    requires format in {RGBA, RGBx, BGRA, BGRx}
    ensures var readback := GlLayout(DrmToGl(format)).value;
      SwapRedBlue(readback) == [Red, Green, Blue, Alpha] <==> format in {BGRA, BGRx}
  {
    var readback := GlLayout(DrmToGl(format)).value;
    var swapped := SwapRedBlue(readback);
    assert swapped[0] == readback[2] && swapped[2] == readback[0];
  }

  // ---------------------------------------------------------------------
  // Buffers and frames

  /** `spa_data_type`. */
  datatype DataType = Invalid | MemPtr | MemFd | DmaBuf | MemId

  /** One data block of a buffer: its type, file descriptor, chunk offset
      and stride, and its bytes when the stream mapped it. */
  datatype Data = Data(kind: DataType, fd: i64, chunkOffset: u32, chunkStride: i32, mapped: Option<seq<u8>>)

  datatype Buffer = Buffer(datas: seq<Data>)

  /** The negotiated `VideoInfoRaw` the worker reads. */
  datatype VideoInfo = VideoInfo(format: VideoFormat, width: u32, height: u32, modifier: u64)

  /** `VideoInfoRaw::default()`: unknown format, zero size, modifier 0; in
      effect until a format is negotiated. */
  const DEFAULT_INFO: VideoInfo := VideoInfo(0, 0, 0, 0)

  /** A frame handed to the consumer: its bytes and the negotiated size. */
  datatype Frame = Frame(pixels: seq<u8>, width: u32, height: u32)

  /** The outcome of one `process` callback. */
  datatype Processed = Idle | Sent(frame: Frame) | Crashed(why: Abort)

  /** The outcome and the driver calls made on the way. */
  datatype Step = Step(outcome: Processed, calls: seq<Call>)

  /** The `while let Some(..) = dequeue_buffer()` loop: the last buffer
      taken, starting from `last`. */
  function Drain(queue: seq<Buffer>, last: Option<Buffer>): Option<Buffer>
    decreases |queue|
  {
    if |queue| == 0 then last else Drain(queue[1..], Some(queue[0]))
  }

  /** Latest wins: draining keeps the newest buffer of the queue, and
      nothing when the queue is empty. */
  lemma {:induction false} DrainKeepsLatest(queue: seq<Buffer>, last: Option<Buffer>)
    ensures Drain(queue, last) == if |queue| == 0 then last else Some(queue[|queue| - 1])
    decreases |queue|
  {
    if |queue| > 0 {
      DrainKeepsLatest(queue[1..], Some(queue[0]));
    }
  }

  /** The plane vectors of a DMA-BUF buffer. */
  datatype PlaneVecs = PlaneVecs(fds: seq<i32>, offsets: seq<u32>, strides: seq<u32>)

  /** The loop that pushes each data block's `fd as i32`, chunk offset and
      `stride as u32`, in block order. */
  function PlaneVectors(datas: seq<Data>): (v: PlaneVecs)
    ensures |v.fds| == |datas| && |v.offsets| == |datas| && |v.strides| == |datas|
    ensures forall i :: 0 <= i < |datas| ==>
      && (v.fds[i] - datas[i].fd) % TWO_32 == 0
      && v.offsets[i] == datas[i].chunkOffset
      && U32AsI32(v.strides[i]) == datas[i].chunkStride
    decreases |datas|
  {
    if |datas| == 0 then PlaneVecs([], [], [])
    else
      var front := PlaneVectors(datas[..|datas| - 1]);
      var d := datas[|datas| - 1];
      PlaneVecs(front.fds + [I64AsI32(d.fd)], front.offsets + [d.chunkOffset], front.strides + [I32AsU32(d.chunkStride)])
  }

  /** The number of RGBA pixels a frame of the negotiated size holds. */
  function PixelCount(info: VideoInfo): nat {
    info.width as nat * info.height as nat
  }

  /** Cutting a frame after a whole number of groups commutes with the
      swap, and what is cut from the swapped frame swaps back to the same
      cut of the original. */
  lemma SwapPrefix<T>(frame: seq<T>, n: nat)
    requires SwapFits(|frame|) && n % 4 == 0 && n <= |frame|
    ensures SwapRedBlue(frame)[..n] == SwapRedBlue(frame[..n])
    ensures SwapRedBlue(SwapRedBlue(frame)[..n]) == frame[..n]
  {
    var cut := SwapRedBlue(frame[..n]);
    forall k | 0 <= k < n ensures SwapRedBlue(frame)[k] == cut[k] {
      GroupPartners(k - k % 4);
    }
    assert SwapRedBlue(frame)[..n] == cut;
    SwapInvolution(frame[..n]);
  }

  /** Swap the bytes, copy them into a `SharedPixelBuffer` of the
      negotiated size and send it.  A bad length panics in the swap; the
      copy reads the bytes as whole four-byte pixels (a trailing partial
      pixel is not read) and panics unless there are exactly
      `width * height` of them; a closed receiver panics in
      `send_blocking(..).unwrap()`. */
  function Deliver(pixels: seq<u8>, info: VideoInfo, receiverOpen: bool): (r: Processed)
    ensures r.Idle? == false
    ensures r.Sent? <==> SwapFits(|pixels|) && |pixels| / 4 == PixelCount(info) && receiverOpen
    ensures r.Crashed? ==>
      (r.why == if !SwapFits(|pixels|) then IndexOutOfBounds
                else if |pixels| / 4 != PixelCount(info) then LengthMismatch
                else UnwrapOnErr)
    ensures r.Sent? ==> |r.frame.pixels| == 4 * PixelCount(info) <= |pixels|
    ensures r.Sent? ==> SwapRedBlue(r.frame.pixels) == pixels[..4 * PixelCount(info)]
    ensures r.Sent? ==> r.frame.width == info.width && r.frame.height == info.height
  {
    if !SwapFits(|pixels|) then Crashed(IndexOutOfBounds)
    else if |pixels| / 4 != PixelCount(info) then Crashed(LengthMismatch)
    else if !receiverOpen then Crashed(UnwrapOnErr)
    else
      var n := 4 * PixelCount(info);
      SwapPrefix(pixels, n);
      Sent(Frame(SwapRedBlue(pixels)[..n], info.width, info.height))
  }

  /** A readback of `stride * height` bytes whose rows are padded by a
      pixel or more never reaches the consumer. */
  lemma PaddedRowsCrash(pixels: seq<u8>, info: VideoInfo, stride: nat, receiverOpen: bool)
    requires 0 < info.height && 4 * info.width as nat + 4 <= stride
    requires |pixels| == stride * info.height as nat
    ensures Deliver(pixels, info, receiverOpen).Crashed?
  {
    var w, h := info.width as nat, info.height as nat;
    assert |pixels| >= (4 * w + 4) * h by { MulMono(4 * w + 4, stride, h); }
    assert |pixels| / 4 >= (w + 1) * h;
  }

  /** Unpadded rows (`stride == 4 * width`) are sent whenever the receiver
      is open. */
  lemma UnpaddedRowsSent(pixels: seq<u8>, info: VideoInfo, receiverOpen: bool)
    requires |pixels| == 4 * PixelCount(info)
    ensures Deliver(pixels, info, receiverOpen).Sent? <==> receiverOpen
  {
  }

  lemma MulMono(a: nat, b: nat, c: nat)
    requires a <= b
    ensures a * c <= b * c
  {
  }

  /** The body of `process` for the newest buffer.  A buffer whose first
      block is a DMA-BUF is imported with all its blocks as planes and the
      import `unwrap`ped; any other buffer must be mapped. */
  function ProcessBuffer(buffer: Buffer, info: VideoInfo, dma: EglDmaBuf, drv: ImportDriver, receiverOpen: bool): Step {
    if |buffer.datas| == 0 then Step(Idle, [])
    else if buffer.datas[0].kind == DmaBuf then
      var v := PlaneVectors(buffer.datas);
      var imported := ImageFromDmaBuf(dma, info.width, info.height, info.format, v.fds, v.strides, v.offsets, info.modifier, drv);
      match imported.result
      case Ok(image) => Step(Deliver(image, info, receiverOpen), imported.calls)
      case Err(_) => Step(Crashed(UnwrapOnErr), imported.calls)
      case Panic(why) => Step(Crashed(why), imported.calls)
    else
      match buffer.datas[0].mapped
      case None => Step(Crashed(UnwrapOnNone), [])
      case Some(bytes) => Step(Deliver(bytes, info, receiverOpen), [])
  }

  /** The `process` callback. */
  function Process(queue: seq<Buffer>, info: VideoInfo, dma: EglDmaBuf, drv: ImportDriver, receiverOpen: bool): Step {
    match Drain(queue, None)
    case None => Step(Idle, [])
    case Some(buffer) => ProcessBuffer(buffer, info, dma, drv, receiverOpen)
  }

  /** Only the newest queued buffer is looked at; an empty queue and a
      buffer without data blocks do nothing and call nothing. */
  lemma ProcessUsesLatest(queue: seq<Buffer>, info: VideoInfo, dma: EglDmaBuf, drv: ImportDriver, receiverOpen: bool)
    ensures Process(queue, info, dma, drv, receiverOpen) ==
      if |queue| == 0 then Step(Idle, []) else ProcessBuffer(queue[|queue| - 1], info, dma, drv, receiverOpen)
    ensures |queue| == 0 || |queue[|queue| - 1].datas| == 0 ==> Process(queue, info, dma, drv, receiverOpen) == Step(Idle, [])
  {
    DrainKeepsLatest(queue, None);
  }

  /** A DMA-BUF buffer: the frame sent is the swapped readback of the import
      of its blocks, cut to `width * height` pixels, and the worker crashes
      exactly when the import fails or panics, the readback length cannot
      be swapped, the readback does not hold exactly `width * height` whole
      pixels, or the receiver is gone. */
  lemma DmaBufFrameIsSwappedImport(buffer: Buffer, info: VideoInfo, dma: EglDmaBuf, drv: ImportDriver, receiverOpen: bool)
    requires |buffer.datas| > 0 && buffer.datas[0].kind == DmaBuf
    ensures var v := PlaneVectors(buffer.datas);
      var imported := ImageFromDmaBuf(dma, info.width, info.height, info.format, v.fds, v.strides, v.offsets, info.modifier, drv);
      var step := ProcessBuffer(buffer, info, dma, drv, receiverOpen);
      && step.calls == imported.calls
      && (step.outcome.Sent? ==>
            && imported.result.Ok?
            && |step.outcome.frame.pixels| == 4 * PixelCount(info)
            && SwapRedBlue(step.outcome.frame.pixels) == imported.result.value[..4 * PixelCount(info)])
      && (step.outcome.Crashed? <==>
            || !imported.result.Ok?
            || !SwapFits(|imported.result.value|)
            || |imported.result.value| / 4 != PixelCount(info)
            || !receiverOpen)
      && !step.outcome.Idle?
  {
  }

  /** A mapped buffer: the frame sent is the swapped content of the first
      block, cut to `width * height` pixels; an unmapped one crashes the
      worker. */
  lemma MappedFrameIsSwappedData(buffer: Buffer, info: VideoInfo, dma: EglDmaBuf, drv: ImportDriver, receiverOpen: bool)
    requires |buffer.datas| > 0 && buffer.datas[0].kind != DmaBuf
    ensures var step := ProcessBuffer(buffer, info, dma, drv, receiverOpen);
      && step.calls == []
      && !step.outcome.Idle?
      && (buffer.datas[0].mapped.None? ==> step.outcome == Crashed(UnwrapOnNone))
      && (step.outcome.Sent? ==>
            && buffer.datas[0].mapped.Some?
            && |step.outcome.frame.pixels| == 4 * PixelCount(info)
            && SwapRedBlue(step.outcome.frame.pixels) == buffer.datas[0].mapped.value[..4 * PixelCount(info)])
  {
  }

  /** Before any format is negotiated, a DMA-BUF buffer crashes the worker:
      the unknown format has no fourcc. */
  lemma DmaBufBeforeFormatCrashes(buffer: Buffer, dma: EglDmaBuf, drv: ImportDriver, receiverOpen: bool)
    requires |buffer.datas| > 0 && buffer.datas[0].kind == DmaBuf
    requires drv.makeCurrentError.None?
    ensures ProcessBuffer(buffer, DEFAULT_INFO, dma, drv, receiverOpen).outcome == Crashed(UnwrapOnNone)
  {
    var v := PlaneVectors(buffer.datas);
    ImageAttribsShape(0, 0, 0, v.fds, v.offsets, v.strides, 0);
  }

  // ---------------------------------------------------------------------
  // The format offer

  /** The formats offered, in order of preference. */
  const OFFERED_FORMATS: seq<VideoFormat> := [BGRA, RGBA, RGBx, BGRx]

  datatype Rectangle = Rectangle(width: u32, height: u32)
  datatype Fraction = Fraction(num: u32, denom: u32)

  /** A `Choice::Range`: the preferred value and the bounds. */
  datatype Range<T> = Range(preferred: T, min: T, max: T)

  /** The `VideoModifier` property: a `Choice::Enum` of `i64` values with
      the `MANDATORY` and `DONT_FIXATE` flags. */
  datatype ModifierChoice = ModifierChoice(mandatory: bool, dontFixate: bool, preferred: i64, alternatives: seq<i64>)

  /** One `EnumFormat` object (media type video, subtype raw). */
  datatype FormatParam = FormatParam(format: VideoFormat, modifier: ModifierChoice, size: Range<Rectangle>, framerate: Range<Fraction>)

  const SIZE_RANGE: Range<Rectangle> := Range(Rectangle(320, 240), Rectangle(1, 1), Rectangle(4096, 4096))
  const FRAMERATE_RANGE: Range<Fraction> := Range(Fraction(25, 1), Fraction(0, 1), Fraction(1000, 1))

  /** The modifiers offered with `format`: the driver's list (ending in
      `DRM_FORMAT_MOD_INVALID`) when the query succeeds, only
      `DRM_FORMAT_MOD_INVALID` when it fails, each cast `as i64`. */
  function OfferedModifiers(dma: EglDmaBuf, drv: Driver, format: VideoFormat): (r: seq<i64>)
    requires SpaToDrm(format).Some?
    ensures 0 < |r| && r[|r| - 1] == DRM_FORMAT_MOD_INVALID
    ensures var q := QueryDmaBufModifiers(dma, drv, format);
      && (q.Ok? ==> |r| == |q.value| && forall i :: 0 <= i < |r| ==> r[i] % TWO_64 == q.value[i])
      && (!q.Ok? ==> r == [DRM_FORMAT_MOD_INVALID])
  {
    var listed := match QueryDmaBufModifiers(dma, drv, format)
      case Ok(modifiers) => modifiers
      case Err(_) => [DRM_FORMAT_MOD_INVALID]
      case Panic(_) => assert false; [DRM_FORMAT_MOD_INVALID];
    seq(|listed|, i requires 0 <= i < |listed| => U64AsI64(listed[i]))
  }

  /** The offer for one format; the preferred modifier is the first. */
  function FormatParamFor(dma: EglDmaBuf, drv: Driver, format: VideoFormat): FormatParam
    requires SpaToDrm(format).Some?
  {
    var modifiers := OfferedModifiers(dma, drv, format);
    FormatParam(format, ModifierChoice(true, true, modifiers[0], modifiers), SIZE_RANGE, FRAMERATE_RANGE)
  }

  /** The params passed to `stream.connect`, one per offered format. */
  function FormatParams(dma: EglDmaBuf, drv: Driver): seq<FormatParam> {
    seq(|OFFERED_FORMATS|, i requires 0 <= i < |OFFERED_FORMATS| => FormatParamFor(dma, drv, OFFERED_FORMATS[i]))
  }

  /** Every offered format can be imported; the offer holds one object per
      format in order; each modifier choice is a negotiable mandatory set
      whose alternatives are the modifiers queried for that format and
      whose preferred value is the first of them, and which always includes
      `DRM_FORMAT_MOD_INVALID`; the preferred size and frame rate lie inside
      their ranges. */
  lemma FormatOfferShape(dma: EglDmaBuf, drv: Driver)
    ensures forall f :: f in OFFERED_FORMATS ==> SpaToDrm(f).Some?
    ensures var params := FormatParams(dma, drv);
      && |params| == 4
      && (forall i :: 0 <= i < 4 ==> params[i].format == OFFERED_FORMATS[i])
      && (forall i :: 0 <= i < 4 ==>
            var m := params[i].modifier;
            && m.mandatory && m.dontFixate
            && m.alternatives == OfferedModifiers(dma, drv, OFFERED_FORMATS[i])
            && 0 < |m.alternatives| && m.preferred == m.alternatives[0]
            && DRM_FORMAT_MOD_INVALID in m.alternatives)
      && (forall i :: 0 <= i < 4 ==>
            var size := params[i].size;
            && size.min.width <= size.preferred.width <= size.max.width
            && size.min.height <= size.preferred.height <= size.max.height)
      && (forall i :: 0 <= i < 4 ==>
            var rate := params[i].framerate;
            && rate.min.denom == rate.preferred.denom == rate.max.denom > 0
            && rate.min.num <= rate.preferred.num <= rate.max.num)
  {
    var params := FormatParams(dma, drv);
    forall i | 0 <= i < 4
      ensures DRM_FORMAT_MOD_INVALID in params[i].modifier.alternatives
    {
      var alternatives := params[i].modifier.alternatives;
      assert alternatives[|alternatives| - 1] == DRM_FORMAT_MOD_INVALID;
    }
  }

  // ---------------------------------------------------------------------
  // The session

  /** `PipewireStream`: the worker's join handle and the command sender,
      both present between `start` and `stop`. */
  datatype PipewireStream = PipewireStream(threadHandle: Option<nat>, cmdSender: Option<nat>)

  function Create(): PipewireStream
  {
    PipewireStream(None, None)
  }

  /** `start`: spawns the worker and keeps its handle and command sender;
      an earlier worker's handle and sender are replaced. */
  function Start(s: PipewireStream, thread: nat, sender: nat): PipewireStream
  {
    PipewireStream(Some(thread), Some(sender))
  }

  /** `stop`: takes the sender and sends `Stop`, then takes the handle and
      joins the worker, `unwrap`ping each step.  `sendOk` is false when the
      worker's command receiver is gone; `joinOk` is false when the worker
      thread panicked. */
  function Stop(s: PipewireStream, sendOk: bool, joinOk: bool): (r: Outcome<PipewireStream, ()>)
    ensures !r.Err?
    ensures r.Ok? <==> s.cmdSender.Some? && s.threadHandle.Some? && sendOk && joinOk
    ensures r.Ok? ==> r.value.threadHandle.None? && r.value.cmdSender.None?
    ensures r.Panic? ==> r.abort == (if s.cmdSender.None? || (sendOk && s.threadHandle.None?) then UnwrapOnNone else UnwrapOnErr)
  {
    if s.cmdSender.None? then Panic(UnwrapOnNone)
    else if !sendOk then Panic(UnwrapOnErr)
    else if s.threadHandle.None? then Panic(UnwrapOnNone)
    else if !joinOk then Panic(UnwrapOnErr)
    else Ok(PipewireStream(None, None))
  }

  /** Start then stop returns to the created state, whatever worker an
      earlier start left behind; stopping a session that was never started,
      or stopping it twice, panics. */
  lemma StartStopCycle(s: PipewireStream, thread: nat, sender: nat, sendOk: bool, joinOk: bool)
    ensures Stop(Start(s, thread, sender), true, true) == Ok(Create())
    ensures Start(s, thread, sender) == Start(Create(), thread, sender)
    ensures Stop(Create(), sendOk, joinOk) == Panic(UnwrapOnNone)
    ensures Stop(Stop(Start(Create(), thread, sender), true, true).value, sendOk, joinOk) == Panic(UnwrapOnNone)
  {
  }

  // ---------------------------------------------------------------------
  // The worker's loop

  datatype Command = StopCommand

  /** What the worker's loop wakes up for: buffers to process (with the
      driver's answers for the import and whether the frame receiver is
      still open), or a command. */
  datatype LoopEvent =
    | BuffersReady(queue: seq<Buffer>, drv: ImportDriver, receiverOpen: bool)
    | CommandReceived(cmd: Command)

  /** How the loop ended: quit on `Stop`, died in a panic, or still waiting
      when the events ran out. */
  datatype Exit = Quitted | Died(why: Abort) | Waiting

  /** The frames sent, the driver calls made, whether the stream data is
      still held, and how the loop ended. */
  datatype WorkerRun = WorkerRun(frames: seq<Frame>, calls: seq<Call>, streamHeld: bool, exit: Exit)

  function IsStop(e: LoopEvent): bool {
    e.CommandReceived?
  }

  /** The number of `process` callbacks among `events`. */
  function BufferEvents(events: seq<LoopEvent>): nat
    decreases |events|
  {
    if |events| == 0 then 0 else (if events[0].BuffersReady? then 1 else 0) + BufferEvents(events[1..])
  }

  /** `mainloop.run()` over a sequence of wake-ups.  `Stop` drops the stream
      data and quits the loop; a panic in `process` ends the thread. */
  function RunLoop(events: seq<LoopEvent>, info: VideoInfo, dma: EglDmaBuf): (r: WorkerRun)
    ensures |r.frames| <= BufferEvents(events)
    ensures r.streamHeld <==> !r.exit.Quitted?
    ensures r.exit.Quitted? ==> exists k :: 0 <= k < |events| && IsStop(events[k])
    ensures (forall k :: 0 <= k < |events| ==> !IsStop(events[k])) ==> !r.exit.Quitted?
    ensures (exists k :: 0 <= k < |events| && IsStop(events[k])) ==> !r.exit.Waiting?
    decreases |events|
  {
    if |events| == 0 then WorkerRun([], [], true, Waiting)
    else match events[0]
      case CommandReceived(StopCommand) => WorkerRun([], [], false, Quitted)
      case BuffersReady(queue, drv, receiverOpen) =>
        var step := Process(queue, info, dma, drv, receiverOpen);
        match step.outcome
        case Crashed(why) => WorkerRun([], step.calls, true, Died(why))
        case Idle =>
          var rest := RunLoop(events[1..], info, dma);
          assert forall k :: 0 <= k < |events[1..]| ==> events[1..][k] == events[k + 1];
          WorkerRun(rest.frames, step.calls + rest.calls, rest.streamHeld, rest.exit)
        case Sent(frame) =>
          var rest := RunLoop(events[1..], info, dma);
          assert forall k :: 0 <= k < |events[1..]| ==> events[1..][k] == events[k + 1];
          WorkerRun([frame] + rest.frames, step.calls + rest.calls, rest.streamHeld, rest.exit)
  }

  /** A `Stop` that arrives while the loop is still waiting drops the stream
      data and quits, keeping the frames and calls of the callbacks before
      it. */
  lemma {:induction false} StopQuits(before: seq<LoopEvent>, info: VideoInfo, dma: EglDmaBuf)
    requires RunLoop(before, info, dma).exit.Waiting?
    ensures var prefix := RunLoop(before, info, dma);
      RunLoop(before + [CommandReceived(StopCommand)], info, dma) == WorkerRun(prefix.frames, prefix.calls, false, Quitted)
    decreases |before|
  {
    var stop := [CommandReceived(StopCommand)];
    if |before| > 0 {
      assert (before + stop)[0] == before[0];
      assert (before + stop)[1..] == before[1..] + stop;
      StopQuits(before[1..], info, dma);
    }
  }

  /** Nothing is dispatched after `Stop`: whatever follows the command, the
      run is the same as if the events had ended there. */
  lemma {:induction false} NothingAfterStop(before: seq<LoopEvent>, after: seq<LoopEvent>, info: VideoInfo, dma: EglDmaBuf)
    ensures RunLoop(before + [CommandReceived(StopCommand)] + after, info, dma) == RunLoop(before + [CommandReceived(StopCommand)], info, dma)
    decreases |before|
  {
    var stop := [CommandReceived(StopCommand)];
    if |before| > 0 {
      assert (before + stop + after)[1..] == before[1..] + stop + after;
      assert (before + stop)[1..] == before[1..] + stop;
      NothingAfterStop(before[1..], after, info, dma);
    }
  }
}

# learn_screencast: DMA-BUF screencast import, modelled in Dafny

`learn_screencast` captures a desktop screencast from PipeWire and shows it in
a Slint window. A worker thread receives the video buffers. When a buffer is a
DMA-BUF it is imported as an `EGLImageKHR` through the Khronos
`EGL_EXT_image_dma_buf_import` and `EGL_EXT_image_dma_buf_import_modifiers`
extensions, bound to a GL texture and read back with `glGetTexImage`. Red and
blue are then swapped in every four-byte pixel and the frame goes to the UI
over a channel. Before it connects, the stream offers four pixel formats, each
with the list of modifiers the EGL driver can import.

This project models the decision and data-shaping logic between the driver
calls. Every EGL, GL and PipeWire answer is an input. The calls with a lasting
effect are recorded as a trace (`DriverCalls.Call`). Rust panics (`unwrap`,
`expect`, out-of-bounds indexing, a failing `try_into`) are modelled as results
(`Wrappers.Outcome.Panic`), never as preconditions. `as` casts are written out
as the bit-pattern reinterpretations Rust defines (`Ints`).

Modules, one per source file:

- `Wrappers`, `Ints`, `DriverCalls`: the result types, the fixed-width integers and casts, and the call trace.
- `GlExt` (`src/gl_ext.rs`):
  - `check_error`;
  - the message each GL error code is displayed with, including the decimal rendering of unnamed codes.
- `EglExt` (`src/egl_ext.rs`):
  - the DMA-BUF attribute keys;
  - the extension-string probing done with two `find` calls on one shared `split(' ')` iterator;
  - the entry points installed by `InstanceExt::new` and `load_display_extensions`;
  - the two-call count protocol of the DMA-BUF queries;
  - `create_image_khr` and the image handle that destroys itself on drop.
- `EglDmaBuf` (`src/egl_dma_buf.rs`):
  - the format tables;
  - the attribute list built by `image_from_dma_buf`, with a read-back (`Lookup`, `DecodePlane`, `DecodeModifier`) that proves it round-trips;
  - the import sequence with its error, panic and release behaviour;
  - `query_dma_buf_modifiers` and `iter_to_array`.
- `PipewireStream` (`src/pipewire_stream.rs`):
  - `convert_bgr_to_rgb`, both as a loop and as a per-pixel reference definition;
  - the `process` callback: latest-wins draining, plane vectors, the DMA-BUF and mapped paths;
  - the format offer;
  - the `start`/`stop` lifecycle;
  - the worker's command loop.

Behaviour of the code worth knowing:

- `DRM_FORMAT_MOD_INVALID` (`0x00ffffffffffffff`) means "no modifier": no modifier pairs are sent for it. `DRM_FORMAT_MOD_LINEAR` (0) gets explicit low and high words like any other modifier.
- A failed import is `unwrap`ped in `process`, so the worker thread panics. It is not a dropped frame.
- The readback buffer holds `strides[0] * height` bytes, multiplied on `u32`. It is not `width * height * 4`.
- The GL texture is deleted only after a successful readback. The error paths leave it allocated.
- A frame reaches the UI only when the buffer holds exactly `width * height` four-byte pixels. A DMA-BUF whose rows are padded (a stride above `4 * width`, e.g. 1366 pixels wide with a 5504-byte stride) makes the copy into the pixel buffer panic (`PipewireStream.PaddedRowsCrash`).
- The red/blue swap yields RGBA byte order only for the blue-first formats (BGRA, BGRx). Red-first streams are read back as RGBA by GL and then swapped into BGRA (`PipewireStream.SwapYieldsRgbaForBlueFirst`).

## Model

| member | source | states |
|---|---|---|
| `Ints.U32AsI32` | src/egl_dma_buf.rs:152-158 | `u32 as i32` keeps the bit pattern: the result is congruent to the input modulo 2^32 and non-negative exactly below 2^31 |
| `Ints.I32AsU32` | src/pipewire_stream.rs:260 | `i32 as u32` is the inverse reinterpretation; it is below 2^31 exactly for non-negative inputs |
| `Ints.U32RoundTrip` | src/egl_dma_buf.rs:155-158 | an offset or stride sent as `i32` reads back as the original `u32` |
| `Ints.I64AsI32` | src/pipewire_stream.rs:258 | `fd as i32` keeps the low 32 bits: it differs from the `i64` by a multiple of 2^32 and equals it when it fits |
| `Ints.U64AsI64` | src/pipewire_stream.rs:320 | `m as i64` is congruent to `m` modulo 2^64 and non-negative exactly below 2^63 |
| `Ints.HalvesRecombine` | src/egl_dma_buf.rs:160-165 | the high word times 2^32 plus the low word gives back the 64-bit modifier |
| `GlExt.CheckError` | src/gl_ext.rs:55-62 | Ok exactly when the observed code is `GL_NO_ERROR`; otherwise an error carrying the same code; never panics |
| `GlExt.Message` | src/gl_ext.rs:37-51 | "Ok" exactly for `GL_NO_ERROR`; a fixed message for each named code; "Unrecognized: " plus the decimal code otherwise, and only then a message starting with 'U' |
| `GlExt.MessageInjective` | src/gl_ext.rs:39-48 | two error codes displayed alike are the same code |
| `GlExt.Decimal` | src/gl_ext.rs:48 | the decimal rendering is a non-empty digit string without a leading zero |
| `GlExt.ParseDecimalInverts` | src/gl_ext.rs:48 | reading the decimal rendering back gives the code |
| `EglExt.PlaneKeysDistinct` | src/egl_ext.rs:13-38 | the twenty per-plane keys are five distinct keys per plane, no key shared by two planes, none equal to a header key or `EGL_NONE` |
| `EglExt.Split` | src/egl_ext.rs:70-73 | splitting on single spaces gives at least one piece and no piece contains a space |
| `EglExt.JoinSplit` | src/egl_ext.rs:70-73 | joining the pieces with single spaces gives the extension string back |
| `EglExt.SplitJoin` | src/egl_ext.rs:70-73 | splitting a space-joined list of space-free tokens gives the list back |
| `EglExt.Find` | src/egl_ext.rs:75-81 | `find` reports a match exactly when one exists at or after the iterator's position, stops just past the first match, and leaves the iterator exhausted otherwise |
| `EglExt.ProbeInOrderSpec` | src/egl_ext.rs:70-81 | the first probe is plain token membership; the second succeeds exactly when the second token occurs after an occurrence of the first |
| `EglExt.ProbeMissesReversedPair` | src/egl_ext.rs:147-170 | with both tokens present but in reverse order, the second is reported missing |
| `EglExt.NewInstanceExt` | src/egl_ext.rs:67-122 | a failed or non-UTF-8 query is propagated; `NoNoDisplayExtensions` exactly when the gbm token does not follow the platform-base token; a panic exactly when a required symbol is missing; a new instance has neither DMA-BUF query |
| `EglExt.LoadDisplayExtensions` | src/egl_ext.rs:143-183 | never an error for a missing token; installs the formats query when the import token is found and the modifiers query when the modifiers token is found on the same iterator; panics exactly when a found token's symbol is missing; the other entry points are unchanged |
| `EglExt.LoadOnFreshInstance` | src/egl_ext.rs:153-180 | on a fresh instance the formats query is installed iff the import token is present, and the modifiers query iff the modifiers token follows it |
| `EglExt.Overwrite` | src/egl_ext.rs:195-197 | the queried vector has exactly `count` entries: the driver's values where written, zero elsewhere |
| `EglExt.QueryDmaBufFormats` | src/egl_ext.rs:185-202 | `ExtensionUnavailable` without the entry point; `NoDmaBufFormats` when a call fails or the count is not positive; otherwise exactly `count` formats |
| `EglExt.QueryDmaBufModifiersExt` | src/egl_ext.rs:204-237 | every failure, a missing entry point included, is `NoDmaBufModifiers`; success exactly when the entry point exists, both calls succeed and the count is positive, giving `count` modifiers |
| `EglExt.CreateImageKhr` | src/egl_ext.rs:239-262 | a handle exactly when the driver returns non-null, holding that pointer and the display; an EGL error for null with an error pending; a panic for null with none |
| `EglExt.CreatedImageDestroysItself` | src/egl_ext.rs:239-275 | a handle returned by `create_image_khr` destroys, when dropped, exactly the pointer the driver returned, on the display it was created on |
| `EglDmaBuf.SpaToDrm` | src/egl_dma_buf.rs:336-345 | a fourcc exactly for RGBA, RGBx, BGRA and BGRx |
| `EglDmaBuf.SpaToDrmInjective` | src/egl_dma_buf.rs:336-345 | the four fourccs are pairwise distinct |
| `EglDmaBuf.DrmToGl` | src/egl_dma_buf.rs:347-357 | always one of `GL_RGBA`, `GL_BGRA`, `GL_RGB`, `GL_BGR`; `GL_BGRA` for every format not listed |
| `EglDmaBuf.FourccLayoutAgrees` | src/egl_dma_buf.rs:336-345 | the fourcc chosen for each of the four stream formats names the same bytes in the same memory order |
| `EglDmaBuf.ReadbackLayoutAgrees` | src/egl_dma_buf.rs:347-357 | the GL readback format returns the stream format's channels in order, with padding read as alpha |
| `EglDmaBuf.TranslationTablesAgree` | src/egl_dma_buf.rs:336-357 | the fourcc chosen for a stream format lays out the bytes as the format names them, and the GL readback format returns the channels in that order (padding read as alpha) |
| `EglDmaBuf.PlanesFromShape` | src/egl_dma_buf.rs:152-166 | the plane loop completes exactly when every plane is encodable; the panic is `IntConversion` for a low word of 2^31 or more reached in bounds, otherwise an out-of-bounds index; 3 or 5 pairs per plane |
| `EglDmaBuf.ImageAttribsShape` | src/egl_dma_buf.rs:113-168 | the list is built exactly for a known format and encodable planes; length 7+6n, or 7+10n with a modifier, at most 47; it starts with width, height and fourcc and ends with `EGL_NONE` |
| `EglDmaBuf.PlanesFromStep` | src/egl_dma_buf.rs:152-166 | one turn of the plane loop: plane `idx`'s three or five pairs come before the pairs of every later plane |
| `EglDmaBuf.ImageAttribsSplit` | src/egl_dma_buf.rs:113-168 | a built list is the six header entries, then the plane section, then `EGL_NONE` |
| `EglDmaBuf.PlanesFromOrder` | src/egl_dma_buf.rs:152-166 | the pairs of plane `j` sit at block `j` of the plane section |
| `EglDmaBuf.PlanesFromFirst` | src/egl_dma_buf.rs:152-158 | the first turn of the plane loop puts plane `idx`'s pairs at the front of the plane section |
| `EglDmaBuf.ImageAttribsPlaneOrder` | src/egl_dma_buf.rs:152-166 | after the six header entries, plane `j`'s block holds FD, OFFSET and PITCH with its values, then the modifier's low and high words unless the modifier is INVALID |
| `EglDmaBuf.PlaneAttribsLookup` | src/egl_dma_buf.rs:152-165 | one plane's pairs are well formed, keyed only by that plane's keys, and hold its fd, offset, pitch and (when sent) modifier words |
| `EglDmaBuf.PlanesFromLookup` | src/egl_dma_buf.rs:152-166 | the plane section answers a per-plane key from that key's own plane and nothing else |
| `EglDmaBuf.PlanesCombine` | src/egl_dma_buf.rs:152-166 | a plane's pairs in front of the later planes' pairs: each key is answered by its own plane, whichever of the two parts holds it |
| `EglDmaBuf.PlanesTailLookup` | src/egl_dma_buf.rs:152-168 | the plane section and terminator answer exactly the keys of the planes sent |
| `EglDmaBuf.HeaderLookup` | src/egl_dma_buf.rs:113-119 | the header answers width, height and fourcc and defers every other key to what follows |
| `EglDmaBuf.ImageAttribsLookup` | src/egl_dma_buf.rs:113-168 | reading the list: header keys give width, height and fourcc; a key of a plane sent gives that plane's value; every other key is absent |
| `EglDmaBuf.ImageAttribsRoundTrip` | src/egl_dma_buf.rs:152-165 | the EGL side reads back each plane's fd, offset and pitch, nothing for planes beyond the last, and the whole 64-bit modifier on every plane exactly when it is not INVALID |
| `EglDmaBuf.PlaneRoundTrip` | src/egl_dma_buf.rs:152-158 | each plane sent reads back with its own fd, offset and pitch; a plane not sent reads back as absent |
| `EglDmaBuf.ModifierRoundTrip` | src/egl_dma_buf.rs:160-165 | each plane sent reads back the whole 64-bit modifier from its two words exactly when the modifier is not INVALID |
| `EglDmaBuf.ImageFromDmaBuf` | src/egl_dma_buf.rs:95-207 | no planes gives the plane-count error before any call; the import succeeds exactly when there are planes, the context is made current, the attribute list is built, the driver returns an image and neither GL check reports an error; a make-current or image-creation failure is returned as that EGL error, a failed bind or readback as that GL code; success returns the `strides[0] * height` bytes GL wrote |
| `EglDmaBuf.ImportReleasesImage` | src/egl_dma_buf.rs:170-206 | a created image is destroyed exactly once, on its display, as the last call; otherwise nothing is destroyed; the texture is deleted exactly on success |
| `EglDmaBuf.ImportDestroysCreated` | src/egl_dma_buf.rs:170-206 | once the image exists, every exit path destroys it once, on its own display, as the last call |
| `EglDmaBuf.ImportDestroysNothingElse` | src/egl_dma_buf.rs:110-176 | when no image is created, no path destroys anything |
| `EglDmaBuf.ImportDeletesTexture` | src/egl_dma_buf.rs:178-206 | the texture is deleted on the success path and on no other |
| `EglDmaBuf.ImportPanicsWhen` | src/egl_dma_buf.rs:113-176 | with planes and a current context, the import panics exactly for an unknown format, unencodable planes, or a null image with no EGL error |
| `EglDmaBuf.ImportCallsOnSuccess` | src/egl_dma_buf.rs:110-206 | a successful import makes exactly: make-current, create-image with the built list on `EGL_LINUX_DMA_BUF_EXT`, texture creation and binding, a readback in the format's GL format, texture deletion, image destruction |
| `EglDmaBuf.QueryDmaBufModifiers` | src/egl_dma_buf.rs:314-333 | success exactly when the fourcc is among the driver's formats and the modifiers query succeeds; the result is the driver's modifiers followed by INVALID as the last element; the only panic is an unmapped format |
| `EglDmaBuf.IterToArray` | src/egl_dma_buf.rs:359-365 | an array of the fixed size holding the first items in order and the default value in the remaining slots |
| `PipewireStream.SwapGroups` | src/pipewire_stream.rs:425-431 | the per-byte swap, read as the loop's walk: the first group of four has its first and third bytes exchanged and the rest of the frame is swapped the same way; a trailing group of three is reversed |
| `PipewireStream.SwapFitsExactly` | src/pipewire_stream.rs:426-429 | the walk with step four never reads past the end exactly when the length is 0 or 3 modulo 4 |
| `PipewireStream.SwapInvolution` | src/pipewire_stream.rs:426-430 | swapping twice restores the frame |
| `PipewireStream.ConvertBgrToRgb` | src/pipewire_stream.rs:425-431 | the in-place loop panics (out of bounds) exactly when the length is 1 or 2 modulo 4, and otherwise produces the per-pixel swap |
| `PipewireStream.SwapTurn` | src/pipewire_stream.rs:426-430 | one turn of the loop exchanges the first and third byte of the group at the index and extends the swapped prefix by that group, leaving the bytes after it untouched |
| `PipewireStream.SwapYieldsRgbaForBlueFirst` | src/pipewire_stream.rs:269-280 | after the GL readback and the swap, bytes are in RGBA order exactly for BGRA and BGRx streams |
| `PipewireStream.DrainKeepsLatest` | src/pipewire_stream.rs:237-240 | draining keeps the newest queued buffer, or nothing for an empty queue |
| `PipewireStream.PlaneVectors` | src/pipewire_stream.rs:252-261 | one fd, offset and stride per data block, in block order, with the `as` conversions |
| `PipewireStream.Deliver` | src/pipewire_stream.rs:280-297 | a frame is sent exactly when the length can be swapped, the bytes hold exactly `width * height` whole pixels and the receiver is open; otherwise the panic is, in that order, out of bounds, length mismatch, unwrap on Err; a sent frame has `4 * width * height` bytes that swap back to the start of the input, and the negotiated size |
| `PipewireStream.SwapPrefix` | src/pipewire_stream.rs:280-285 | swapping, then keeping whole pixels, equals keeping them and then swapping, and swaps back to the kept input bytes |
| `PipewireStream.PaddedRowsCrash` | src/pipewire_stream.rs:281-297 | a `stride * height` readback whose rows are padded by at least one pixel is never sent: the worker crashes |
| `PipewireStream.UnpaddedRowsSent` | src/pipewire_stream.rs:281-297 | a readback of exactly `4 * width * height` bytes is sent exactly when the receiver is open |
| `PipewireStream.ProcessUsesLatest` | src/pipewire_stream.rs:237-248 | only the newest buffer is processed; an empty queue or a buffer without blocks does nothing and calls nothing |
| `PipewireStream.DmaBufFrameIsSwappedImport` | src/pipewire_stream.rs:252-297 | on the DMA-BUF path the frame sent is the swapped readback of the import of all blocks, cut to `width * height` pixels; the worker crashes exactly when the import is not Ok, the length cannot be swapped, the readback does not hold exactly `width * height` whole pixels, or the receiver is gone |
| `PipewireStream.MappedFrameIsSwappedData` | src/pipewire_stream.rs:286-297 | on the memory path the frame sent is the swapped bytes of the first block, cut to `width * height` pixels; an unmapped block crashes the worker; no driver call is made |
| `PipewireStream.DmaBufBeforeFormatCrashes` | src/pipewire_stream.rs:263-279 | with the default (unknown) format, a DMA-BUF buffer crashes the worker on the fourcc `unwrap` |
| `PipewireStream.OfferedModifiers` | src/pipewire_stream.rs:315-320 | the driver's list cast to `i64` when the query succeeds, only INVALID when it fails; never empty and always ending in INVALID |
| `PipewireStream.FormatOfferShape` | src/pipewire_stream.rs:305-385 | four params in the order BGRA, RGBA, RGBx, BGRx; each modifier choice is mandatory and not fixated, its alternatives are the modifiers queried for that format, its default is the first of them, and INVALID is offered; default size and frame rate lie within their ranges |
| `PipewireStream.Stop` | src/pipewire_stream.rs:31-38 | stop succeeds exactly after a start with a working send and a clean join, leaving neither handle nor sender; a missing option panics on `unwrap` of None, a failed send or join on `unwrap` of Err |
| `PipewireStream.StartStopCycle` | src/pipewire_stream.rs:9-38 | start on any session, then a clean stop, returns to the created state; a start replaces whatever worker an earlier start left; stop before start, and a second stop, panic |
| `PipewireStream.RunLoop` | src/pipewire_stream.rs:75-85 | at most one frame per buffer wake-up; the stream data is dropped exactly when the loop quit, which requires a Stop command; once a Stop command arrives the loop is no longer waiting |
| `PipewireStream.StopQuits` | src/pipewire_stream.rs:75-85 | a Stop command reaching a loop that is still waiting drops the stream data and quits, keeping the frames and calls from before it |
| `PipewireStream.NothingAfterStop` | src/pipewire_stream.rs:77-81 | nothing after a Stop command is dispatched |

## Left out

- `EglDmaBuf::new` and its `Drop` (opening `/dev/dri/card1`, GBM device, EGL display and context, GL loading): foreign initialisation. The import context is an input.
- `InstanceExt::get_playform_display_ext` and the `Deref` impls: a foreign call and plumbing.
- `image_from_dma_buf_2`: its own comment marks it as not working.
- `GlExt::load`, the `transmute`d entry points and the `glTexParameteri` calls: foreign calls. Binding the image to the texture appears in the trace as one call.
- The pixel contents `glGetTexImage` writes: an input (`ImportDriver.texel`).
- `ReadbackSize`: the product is taken modulo 2^32, as in a release build. The panic of a debug build on overflow is not modelled.
- `param_changed` and `state_changed`: the negotiated video info is an input, and parsing a format pod is library code.
- `pipewire_thread` setup (main loop, context, `connect_fd`, `start_stream`, stream connect, listener registration), Pod serialisation, `spa_debug_format` and all logging: library and I/O plumbing.
- Threads and channels: the worker thread, `join`, the bounded(10) frame channel and its blocking send. Whether the receiver is still open and whether the join succeeds are inputs.
- `slint::SharedPixelBuffer::clone_from_slice` is not part of this model. Its behaviour is written into `Deliver` as described by Slint and the `rgb` crate: the bytes are read as whole four-byte pixels, and `copy_from_slice` panics unless their number is `width * height`. The allocation of the pixel buffer is not modelled.
- On the memory path the swap writes into the stream's mapped memory. The model treats those bytes as a value.
- Buffers dequeued before the newest one are returned to PipeWire on drop. The model does not track the queue afterwards.
- The `Display` texts of `EglExtError` and `StringError`: plain messages with no logic.
- `src/main.rs` (Slint UI, portal dialog) and `src/bin/*.rs` (demo binaries).
- PipewireStream.PlaneVectors: the `fd as i32` entry is stated only modulo 2^32, and exactly in `Ints.I64AsI32`.
- PipewireStream.RunLoop: bounds the number of frames sent but does not list which ones. Each one is described per callback by `DmaBufFrameIsSwappedImport` and `MappedFrameIsSwappedData`.

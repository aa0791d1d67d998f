/** `src/egl_dma_buf.rs`: importing a DMA-BUF frame through EGL and reading
    it back through GL.

    The pure parts are modelled exactly: the pixel-format tables, the
    attribute list handed to `eglCreateImageKHR` (as defined by the Khronos
    `EGL_EXT_image_dma_buf_import` and `EGL_EXT_image_dma_buf_import_modifiers`
    extensions), and the modifier list offered to the producer.  Every driver
    and GL answer is an input (`ImportDriver`, `Driver`); the calls with a
    lasting effect are recorded as a `Call` trace.
 */
module EglDmaBuf {
  import opened Wrappers
  import opened Ints
  import opened DriverCalls
  import GlExt
  import opened EglExt

  // ---------------------------------------------------------------------
  // Pixel formats

  /** A PipeWire `spa_video_format` value. */
  type VideoFormat = u32

  const RGBx: VideoFormat := 7
  const BGRx: VideoFormat := 8
  const RGBA: VideoFormat := 11
  const BGRA: VideoFormat := 12
  const RGB: VideoFormat := 15
  const BGR: VideoFormat := 16

  /** `fourcc_code` of Linux `drm_fourcc.h`: four characters, first one in
      the low byte. */
  function FourccCode(a: char, b: char, c: char, d: char): int
    requires a < 256 as char && b < 256 as char && c < 256 as char && d < 256 as char
  {
    a as int + (b as int) * 0x100 + (c as int) * 0x1_0000 + (d as int) * 0x100_0000
  }

  const DRM_FORMAT_ARGB8888: EglInt := FourccCode('A', 'R', '2', '4')
  const DRM_FORMAT_ABGR8888: EglInt := FourccCode('A', 'B', '2', '4')
  const DRM_FORMAT_XRGB8888: EglInt := FourccCode('X', 'R', '2', '4')
  const DRM_FORMAT_XBGR8888: EglInt := FourccCode('X', 'B', '2', '4')

  /** `DRM_FORMAT_MOD_INVALID`: the reserved modifier meaning "no modifier". */
  const DRM_FORMAT_MOD_INVALID: u64 := 0x00ff_ffff_ffff_ffff

  /** `spa_pixel_format_to_drm_format`. */
  function SpaToDrm(format: VideoFormat): (r: Option<EglInt>)
    ensures r.Some? <==> format in {RGBA, RGBx, BGRA, BGRx}
  {
    if format == RGBA then Some(DRM_FORMAT_ABGR8888)
    else if format == RGBx then Some(DRM_FORMAT_XBGR8888)
    else if format == BGRA then Some(DRM_FORMAT_ARGB8888)
    else if format == BGRx then Some(DRM_FORMAT_XRGB8888)
    else None
  }

  /** The table is one-to-one: no two formats share a fourcc. */
  lemma SpaToDrmInjective(f: VideoFormat, g: VideoFormat)
    requires SpaToDrm(f).Some? && SpaToDrm(f) == SpaToDrm(g)
    ensures f == g
  {
  }

  /** `drm_pixel_format_to_gl`: the `glGetTexImage` format for a stream
      format, `GL_BGRA` for every format it does not name. */
  function DrmToGl(format: VideoFormat): (r: GlExt.GLenum)
    ensures r in {GlExt.RGBA, GlExt.BGRA, GlExt.RGB, GlExt.BGR}
    ensures format !in {RGBx, RGBA, BGRx, BGRA, RGB, BGR} ==> r == GlExt.BGRA
  {
    if format == RGBx then GlExt.RGBA
    else if format == RGBA then GlExt.RGBA
    else if format == BGRx then GlExt.BGRA
    else if format == BGRA then GlExt.BGRA
    else if format == RGB then GlExt.RGB
    else if format == BGR then GlExt.BGR
    else GlExt.BGRA
  }

  /** What one byte of a packed pixel holds. */
  datatype Channel = Red | Green | Blue | Alpha | Padding

  /** Bytes of one pixel in memory, as the PipeWire format name lists them. */
  function SpaLayout(format: VideoFormat): Option<seq<Channel>> {
    if format == RGBx then Some([Red, Green, Blue, Padding])
    else if format == BGRx then Some([Blue, Green, Red, Padding])
    else if format == RGBA then Some([Red, Green, Blue, Alpha])
    else if format == BGRA then Some([Blue, Green, Red, Alpha])
    else if format == RGB then Some([Red, Green, Blue])
    else if format == BGR then Some([Blue, Green, Red])
    else None
  }

  /** Bytes of one pixel in memory for a 32-bit DRM format, read off the
      characters of its fourcc: `[AX][RB]24` names the channels from the
      most significant byte of a little-endian word, so memory order is the
      reverse. */
  function DrmLayout(fourcc: int): Option<seq<Channel>> {
    var c0, c1, c2, c3 := fourcc % 0x100, (fourcc / 0x100) % 0x100, (fourcc / 0x1_0000) % 0x100, fourcc / 0x100_0000;
    if c2 == '2' as int && c3 == '4' as int && (c0 == 'A' as int || c0 == 'X' as int) && (c1 == 'R' as int || c1 == 'B' as int) then
      var top := if c0 == 'A' as int then Alpha else Padding;
      var high := if c1 == 'R' as int then Red else Blue;
      var low := if c1 == 'R' as int then Blue else Red;
      Some([low, Green, high, top])
    else None
  }

  /** Bytes of one pixel `glGetTexImage` writes for a GL format with
      `GL_UNSIGNED_BYTE` components. */
  function GlLayout(glFormat: GlExt.GLenum): Option<seq<Channel>> {
    if glFormat == GlExt.RGBA then Some([Red, Green, Blue, Alpha])
    else if glFormat == GlExt.BGRA then Some([Blue, Green, Red, Alpha])
    else if glFormat == GlExt.RGB then Some([Red, Green, Blue])
    else if glFormat == GlExt.BGR then Some([Blue, Green, Red])
    else None
  }

  /** A padding byte comes back as the alpha component once imported. */
  function AsOpaque(layout: seq<Channel>): seq<Channel> {
    seq(|layout|, i requires 0 <= i < |layout| => if layout[i] == Padding then Alpha else layout[i])
  }

  /** The two tables agree with the formats' own definitions: the fourcc
      chosen for a stream format lays its bytes out the same way, and the
      readback format returns them in the same order. */
  lemma TranslationTablesAgree(format: VideoFormat)
    requires format in {RGBA, RGBx, BGRA, BGRx, RGB, BGR}
    ensures SpaToDrm(format).Some? ==> DrmLayout(SpaToDrm(format).value) == SpaLayout(format)
    ensures GlLayout(DrmToGl(format)) == Some(AsOpaque(SpaLayout(format).value))
  {
    if SpaToDrm(format).Some? {
      FourccLayoutAgrees(format);
    }
    ReadbackLayoutAgrees(format);
  }

  /** The fourcc half of `TranslationTablesAgree`, one format at a time. */
  lemma FourccLayoutAgrees(format: VideoFormat)
    requires SpaToDrm(format).Some?
    ensures DrmLayout(SpaToDrm(format).value) == SpaLayout(format)
  {
    KnownFourccLayouts();
  }

  /** What `DrmLayout` reads off each of the four fourccs in use. */
  lemma KnownFourccLayouts()
    ensures DrmLayout(DRM_FORMAT_ABGR8888) == Some([Red, Green, Blue, Alpha])
    ensures DrmLayout(DRM_FORMAT_XBGR8888) == Some([Red, Green, Blue, Padding])
    ensures DrmLayout(DRM_FORMAT_ARGB8888) == Some([Blue, Green, Red, Alpha])
    ensures DrmLayout(DRM_FORMAT_XRGB8888) == Some([Blue, Green, Red, Padding])
  {
    assert DRM_FORMAT_ABGR8888 == 0x3432_4241 && DRM_FORMAT_XBGR8888 == 0x3432_4258;
    assert DRM_FORMAT_ARGB8888 == 0x3432_5241 && DRM_FORMAT_XRGB8888 == 0x3432_5258;
  }

  /** The readback half of `TranslationTablesAgree`: padding reads back as
      alpha, every other byte keeps its place. */
  lemma ReadbackLayoutAgrees(format: VideoFormat)
    requires format in {RGBA, RGBx, BGRA, BGRx, RGB, BGR}
    ensures GlLayout(DrmToGl(format)) == Some(AsOpaque(SpaLayout(format).value))
  {
    var layout := SpaLayout(format).value;
    var bright := AsOpaque(layout);
    if format in {RGBx, BGRx} {
      assert bright == [layout[0], Green, layout[2], Alpha] by {
        assert bright[0] == layout[0] && bright[1] == Green && bright[2] == layout[2] && bright[3] == Alpha;
      }
    } else {
      assert bright == layout by {
        assert forall i | 0 <= i < |layout| :: bright[i] == layout[i];
      }
    }
  }


  // ---------------------------------------------------------------------
  // The attribute list

  /** An attribute list, or the panic that stopped its construction. */
  datatype Attribs = Built(list: seq<EglInt>) | Aborted(why: Abort)

  /** The low modifier word is sent but does not fit in an `i32`. */
  predicate LowWordOverflows(modifier: u64) {
    modifier != DRM_FORMAT_MOD_INVALID && Lo32(modifier) >= TWO_31
  }

  /** The pairs of plane `idx`: FD, OFFSET and PITCH, then the modifier's
      low and high words unless the modifier is `DRM_FORMAT_MOD_INVALID`.
      Indexing the four-entry key tables, `offsets` or `strides` past their
      end panics, and so does a low word that does not fit in an `i32`. */
  function PlaneAttribs(idx: nat, fds: seq<i32>, offsets: seq<u32>, strides: seq<u32>, modifier: u64): Attribs
    requires idx < |fds|
  {
    if idx >= PLANE_COUNT_MAX || idx >= |offsets| || idx >= |strides| then Aborted(IndexOutOfBounds)
    else
      var base := [FD_KEYS[idx], fds[idx]]
        + [OFFSET_KEYS[idx], U32AsI32(offsets[idx])]
        + [PITCH_KEYS[idx], U32AsI32(strides[idx])];
      if modifier == DRM_FORMAT_MOD_INVALID then Built(base)
      else if Lo32(modifier) >= TWO_31 then Aborted(IntConversion)
      else Built(base + [MODIFIER_LO_KEYS[idx], Lo32(modifier)] + [MODIFIER_HI_KEYS[idx], U32AsI32(Hi32(modifier))])
  }

  /** The pairs of planes `idx`, `idx + 1`, ... in plane order. */
  function PlanesFrom(idx: nat, fds: seq<i32>, offsets: seq<u32>, strides: seq<u32>, modifier: u64): Attribs
    requires idx <= |fds|
    decreases |fds| - idx
  {
    if idx == |fds| then Built([])
    else match PlaneAttribs(idx, fds, offsets, strides, modifier)
      case Aborted(why) => Aborted(why)
      case Built(plane) =>
        match PlanesFrom(idx + 1, fds, offsets, strides, modifier)
        case Aborted(why) => Aborted(why)
        case Built(rest) => Built(plane + rest)
  }

  /** The attribute list of `image_from_dma_buf`: size, fourcc, the planes,
      `EGL_NONE`.  The fourcc lookup is `unwrap`ped. */
  function ImageAttribs(width: u32, height: u32, format: VideoFormat, fds: seq<i32>, offsets: seq<u32>, strides: seq<u32>, modifier: u64): Attribs {
    match SpaToDrm(format)
    case None => Aborted(UnwrapOnNone)
    case Some(fourcc) =>
      match PlanesFrom(0, fds, offsets, strides, modifier)
      case Aborted(why) => Aborted(why)
      case Built(planes) =>
        Built([EGL_WIDTH, U32AsI32(width), EGL_HEIGHT, U32AsI32(height), EGL_LINUX_DRM_FOURCC_EXT, fourcc] + planes + [EGL_NONE])
  }

  /** Attribute pairs per plane: three, or five with a modifier. */
  function PairsPerPlane(modifier: u64): nat {
    if modifier == DRM_FORMAT_MOD_INVALID then 3 else 5
  }

  /** Every plane can be encoded: at most four, one offset and one stride
      for each, and a low modifier word below 2^31 when it is sent. */
  predicate PlanesEncodable(fds: seq<i32>, offsets: seq<u32>, strides: seq<u32>, modifier: u64) {
    |fds| == 0 ||
    (&& |fds| <= PLANE_COUNT_MAX
     && |fds| <= |offsets|
     && |fds| <= |strides|
     && !LowWordOverflows(modifier))
  }

  lemma {:induction false} PlanesFromShape(idx: nat, fds: seq<i32>, offsets: seq<u32>, strides: seq<u32>, modifier: u64)
    requires idx <= |fds|
    ensures var r := PlanesFrom(idx, fds, offsets, strides, modifier);
      && (r.Built? <==> idx == |fds| || PlanesEncodable(fds, offsets, strides, modifier))
      && (r.Aborted? ==>
            r.why == (if LowWordOverflows(modifier) && idx < PLANE_COUNT_MAX && idx < |offsets| && idx < |strides|
                      then IntConversion else IndexOutOfBounds))
      && (r.Built? ==> |r.list| == 2 * PairsPerPlane(modifier) * (|fds| - idx))
    decreases |fds| - idx
  {
    if idx < |fds| {
      PlanesFromShape(idx + 1, fds, offsets, strides, modifier);
    }
  }

  /** Which inputs the list can be built for, which panic stops it
      otherwise (the low-word check of plane 0 comes before any plane past
      the fourth is indexed), and its length: `7 + 6n`, or `7 + 10n` with a
      modifier, never more than the 47 entries reserved for it. */
  lemma ImageAttribsShape(width: u32, height: u32, format: VideoFormat, fds: seq<i32>, offsets: seq<u32>, strides: seq<u32>, modifier: u64)
    ensures var r := ImageAttribs(width, height, format, fds, offsets, strides, modifier);
      && (r.Built? <==> SpaToDrm(format).Some? && PlanesEncodable(fds, offsets, strides, modifier))
      && (SpaToDrm(format).None? ==> r == Aborted(UnwrapOnNone))
      && (SpaToDrm(format).Some? && r.Aborted? ==>
            r.why == (if LowWordOverflows(modifier) && 0 < |offsets| && 0 < |strides| then IntConversion else IndexOutOfBounds))
      && (r.Built? ==> |r.list| == 7 + 2 * PairsPerPlane(modifier) * |fds|)
      && (r.Built? ==> |r.list| <= 47)
      && (r.Built? ==> r.list[..6] == [EGL_WIDTH, U32AsI32(width), EGL_HEIGHT, U32AsI32(height), EGL_LINUX_DRM_FOURCC_EXT, SpaToDrm(format).value])
      && (r.Built? ==> r.list[|r.list| - 1] == EGL_NONE)
  {
    PlanesFromShape(0, fds, offsets, strides, modifier);
  }

  /** One turn of the plane loop: plane `idx`'s pairs, then the rest. */
  lemma PlanesFromStep(idx: nat, fds: seq<i32>, offsets: seq<u32>, strides: seq<u32>, modifier: u64)
    requires idx < |fds| && PlanesEncodable(fds, offsets, strides, modifier)
    ensures PlaneAttribs(idx, fds, offsets, strides, modifier).Built?
    ensures PlanesFrom(idx, fds, offsets, strides, modifier).Built? && PlanesFrom(idx + 1, fds, offsets, strides, modifier).Built?
    ensures PlanesFrom(idx, fds, offsets, strides, modifier).list
      == PlaneAttribs(idx, fds, offsets, strides, modifier).list + PlanesFrom(idx + 1, fds, offsets, strides, modifier).list
    ensures |PlaneAttribs(idx, fds, offsets, strides, modifier).list| == PlaneBlock(1, modifier)
  {
    PlanesFromShape(idx + 1, fds, offsets, strides, modifier);
  }

  /** The list is the header, the plane section and the terminator. */
  lemma ImageAttribsSplit(width: u32, height: u32, format: VideoFormat, fds: seq<i32>, offsets: seq<u32>, strides: seq<u32>, modifier: u64)
    requires SpaToDrm(format).Some? && PlanesEncodable(fds, offsets, strides, modifier)
    ensures PlanesFrom(0, fds, offsets, strides, modifier).Built?
    ensures ImageAttribs(width, height, format, fds, offsets, strides, modifier).Built?
    ensures ImageAttribs(width, height, format, fds, offsets, strides, modifier).list
      == [EGL_WIDTH, U32AsI32(width), EGL_HEIGHT, U32AsI32(height), EGL_LINUX_DRM_FOURCC_EXT, SpaToDrm(format).value]
         + (PlanesFrom(0, fds, offsets, strides, modifier).list + [EGL_NONE])
  {
    PlanesFromShape(0, fds, offsets, strides, modifier);
  }

  /** Where the `k`-th plane's block of pairs starts within the plane
      section: six entries per plane, ten with a modifier. */
  function PlaneBlock(k: nat, modifier: u64): nat {
    if modifier == DRM_FORMAT_MOD_INVALID then 6 * k else 10 * k
  }

  /** Plane `j`'s pairs are block `j - idx` of the pairs of planes `idx..`. */
  lemma {:induction false} PlanesFromOrder(idx: nat, fds: seq<i32>, offsets: seq<u32>, strides: seq<u32>, modifier: u64, j: nat)
    requires idx <= j < |fds| && PlanesEncodable(fds, offsets, strides, modifier)
    ensures PlanesFrom(idx, fds, offsets, strides, modifier).Built? && PlaneAttribs(j, fds, offsets, strides, modifier).Built?
    ensures var list := PlanesFrom(idx, fds, offsets, strides, modifier).list;
      && PlaneBlock(j - idx + 1, modifier) <= |list|
      && list[PlaneBlock(j - idx, modifier) .. PlaneBlock(j - idx + 1, modifier)] == PlaneAttribs(j, fds, offsets, strides, modifier).list
    decreases j - idx
  {
    if j > idx {
      PlanesFromOrder(idx + 1, fds, offsets, strides, modifier, j);
      PlanesFromShift(idx, fds, offsets, strides, modifier, j);
    } else {
      PlanesFromFirst(idx, fds, offsets, strides, modifier);
    }
  }

  /** The base case of `PlanesFromOrder`: plane `idx`'s pairs are the first
      block of the pairs of planes `idx..`. */
  lemma PlanesFromFirst(idx: nat, fds: seq<i32>, offsets: seq<u32>, strides: seq<u32>, modifier: u64)
    requires idx < |fds| && PlanesEncodable(fds, offsets, strides, modifier)
    ensures PlanesFrom(idx, fds, offsets, strides, modifier).Built? && PlaneAttribs(idx, fds, offsets, strides, modifier).Built?
    ensures var list := PlanesFrom(idx, fds, offsets, strides, modifier).list;
      && PlaneBlock(1, modifier) <= |list|
      && list[PlaneBlock(0, modifier) .. PlaneBlock(1, modifier)] == PlaneAttribs(idx, fds, offsets, strides, modifier).list
  {
    PlanesFromStep(idx, fds, offsets, strides, modifier);
    FirstBlock(PlaneAttribs(idx, fds, offsets, strides, modifier).list, PlanesFrom(idx + 1, fds, offsets, strides, modifier).list, modifier);
  }

  /** The inductive step of `PlanesFromOrder`: plane `idx`'s block in front
      moves plane `j`'s block one place on. */
  lemma PlanesFromShift(idx: nat, fds: seq<i32>, offsets: seq<u32>, strides: seq<u32>, modifier: u64, j: nat)
    requires idx < j < |fds| && PlanesEncodable(fds, offsets, strides, modifier)
    requires PlanesFrom(idx + 1, fds, offsets, strides, modifier).Built? && PlaneAttribs(j, fds, offsets, strides, modifier).Built?
    requires var rest := PlanesFrom(idx + 1, fds, offsets, strides, modifier).list;
      && PlaneBlock(j - idx, modifier) <= |rest|
      && rest[PlaneBlock(j - idx - 1, modifier) .. PlaneBlock(j - idx, modifier)] == PlaneAttribs(j, fds, offsets, strides, modifier).list
    ensures PlanesFrom(idx, fds, offsets, strides, modifier).Built?
    ensures var list := PlanesFrom(idx, fds, offsets, strides, modifier).list;
      && PlaneBlock(j - idx + 1, modifier) <= |list|
      && list[PlaneBlock(j - idx, modifier) .. PlaneBlock(j - idx + 1, modifier)] == PlaneAttribs(j, fds, offsets, strides, modifier).list
  {
    PlanesFromStep(idx, fds, offsets, strides, modifier);
    var plane := PlaneAttribs(idx, fds, offsets, strides, modifier).list;
    var rest := PlanesFrom(idx + 1, fds, offsets, strides, modifier).list;
    var lo, hi := PlaneBlock(j - idx - 1, modifier), PlaneBlock(j - idx, modifier);
    SliceAfter(plane, rest, lo, hi);
    assert PlaneBlock(j - idx, modifier) == |plane| + lo && PlaneBlock(j - idx + 1, modifier) == |plane| + hi;
  }

  /** The first block of a list is its leading block. */
  lemma FirstBlock<T>(plane: seq<T>, rest: seq<T>, modifier: u64)
    requires |plane| == PlaneBlock(1, modifier)
    ensures PlaneBlock(1, modifier) <= |plane + rest|
    ensures (plane + rest)[PlaneBlock(0, modifier) .. PlaneBlock(1, modifier)] == plane
  {
    assert (plane + rest)[0..|plane|] == plane;
  }

  /** A slice past the first part of a concatenation is a slice of the
      second part. */
  lemma SliceAfter<T>(a: seq<T>, b: seq<T>, lo: nat, hi: nat)
    requires lo <= hi <= |b|
    ensures (a + b)[|a| + lo .. |a| + hi] == b[lo..hi]
  {
  }

  /** The block of one plane, entry by entry. */
  lemma PlaneAttribsContent(j: nat, fds: seq<i32>, offsets: seq<u32>, strides: seq<u32>, modifier: u64)
    requires j < |fds| && PlanesEncodable(fds, offsets, strides, modifier)
    ensures PlaneAttribs(j, fds, offsets, strides, modifier) == Built(
      [FD_KEYS[j], fds[j], OFFSET_KEYS[j], U32AsI32(offsets[j]), PITCH_KEYS[j], U32AsI32(strides[j])]
      + (if modifier == DRM_FORMAT_MOD_INVALID then []
         else [MODIFIER_LO_KEYS[j], Lo32(modifier) as EglInt, MODIFIER_HI_KEYS[j], U32AsI32(Hi32(modifier))]))
  {
  }

  /** Per-plane ordering in the whole list: after the six header entries,
      plane `j` occupies the `j`-th block of three (or five) pairs, holding
      FD, OFFSET and PITCH with plane `j`'s values, then the modifier's low
      and high words unless it is `DRM_FORMAT_MOD_INVALID`. */
  lemma ImageAttribsPlaneOrder(width: u32, height: u32, format: VideoFormat, fds: seq<i32>, offsets: seq<u32>, strides: seq<u32>, modifier: u64, j: nat)
    requires SpaToDrm(format).Some? && PlanesEncodable(fds, offsets, strides, modifier)
    requires j < |fds|
    ensures ImageAttribs(width, height, format, fds, offsets, strides, modifier).Built?
    ensures var list := ImageAttribs(width, height, format, fds, offsets, strides, modifier).list;
      && 6 + PlaneBlock(j + 1, modifier) < |list|
      && list[6 + PlaneBlock(j, modifier) .. 6 + PlaneBlock(j + 1, modifier)] ==
           [FD_KEYS[j], fds[j], OFFSET_KEYS[j], U32AsI32(offsets[j]), PITCH_KEYS[j], U32AsI32(strides[j])]
           + (if modifier == DRM_FORMAT_MOD_INVALID then []
              else [MODIFIER_LO_KEYS[j], Lo32(modifier) as EglInt, MODIFIER_HI_KEYS[j], U32AsI32(Hi32(modifier))])
  {
    ImageAttribsSplit(width, height, format, fds, offsets, strides, modifier);
    PlanesFromOrder(0, fds, offsets, strides, modifier, j);
    PlaneAttribsContent(j, fds, offsets, strides, modifier);
    var planes := PlanesFrom(0, fds, offsets, strides, modifier).list;
    var header := [EGL_WIDTH, U32AsI32(width), EGL_HEIGHT, U32AsI32(height), EGL_LINUX_DRM_FOURCC_EXT, SpaToDrm(format).value];
    SliceAfter(header, planes + [EGL_NONE], PlaneBlock(j, modifier), PlaneBlock(j + 1, modifier));
    assert (planes + [EGL_NONE])[PlaneBlock(j, modifier) .. PlaneBlock(j + 1, modifier)]
      == planes[PlaneBlock(j, modifier) .. PlaneBlock(j + 1, modifier)];
  }

  // ---------------------------------------------------------------------
  // Reading the list back, as the EGL implementation does

  /** The value of the first pair with `key` before `EGL_NONE`. */
  function Lookup(attribs: seq<EglInt>, key: EglInt): Option<EglInt>
    decreases |attribs|
  {
    if |attribs| < 2 || attribs[0] == EGL_NONE then None
    else if attribs[0] == key then Some(attribs[1])
    else Lookup(attribs[2..], key)
  }

  /** The keys of a run of pairs. */
  function Keys(attribs: seq<EglInt>): set<EglInt>
    decreases |attribs|
  {
    if |attribs| < 2 then {} else {attribs[0]} + Keys(attribs[2..])
  }

  /** A run of whole pairs with no terminator among its keys. */
  predicate PairRun(attribs: seq<EglInt>) {
    |attribs| % 2 == 0 && EGL_NONE !in Keys(attribs)
  }

  lemma {:induction false} LookupAppend(a: seq<EglInt>, b: seq<EglInt>, key: EglInt)
    requires PairRun(a)
    ensures Lookup(a + b, key) == if key in Keys(a) then Lookup(a, key) else Lookup(b, key)
    ensures PairRun(b) ==> PairRun(a + b) && Keys(a + b) == Keys(a) + Keys(b)
    decreases |a|
  {
    if |a| == 0 {
      assert a + b == b;
    } else {
      assert (a + b)[2..] == a[2..] + b;
      LookupAppend(a[2..], b, key);
    }
  }

  lemma PrependPair(k: EglInt, v: EglInt, rest: seq<EglInt>, key: EglInt)
    requires k != EGL_NONE
    ensures Keys([k, v] + rest) == {k} + Keys(rest)
    ensures PairRun(rest) ==> PairRun([k, v] + rest)
    ensures Lookup([k, v] + rest, key) == if key == k then Some(v) else Lookup(rest, key)
  {
    assert ([k, v] + rest)[2..] == rest;
  }

  lemma LookupAbsent(a: seq<EglInt>, key: EglInt)
    requires PairRun(a) && key !in Keys(a)
    ensures Lookup(a, key) == None
  {
    LookupAppend(a, [], key);
    assert a + [] == a;
  }

  /** The plane a per-plane key belongs to. */
  function PlaneOf(key: EglInt): (r: Option<nat>)
    ensures r.Some? ==> r.value < PLANE_COUNT_MAX && key in PlaneKeys(r.value)
    ensures r.None? ==> forall j :: 0 <= j < PLANE_COUNT_MAX ==> key !in PlaneKeys(j)
  {
    if key in PlaneKeys(0) then Some(0)
    else if key in PlaneKeys(1) then Some(1)
    else if key in PlaneKeys(2) then Some(2)
    else if key in PlaneKeys(3) then Some(3)
    else None
  }

  lemma PlaneOfUnique(key: EglInt, j: nat)
    requires j < PLANE_COUNT_MAX && key in PlaneKeys(j)
    ensures PlaneOf(key) == Some(j)
  {
    PlaneKeysDistinct();
  }

  /** The value the list gives plane `idx`'s `key`. */
  function PlaneValue(idx: nat, fds: seq<i32>, offsets: seq<u32>, strides: seq<u32>, modifier: u64, key: EglInt): Option<EglInt>
    requires idx < |fds| && idx < PLANE_COUNT_MAX && idx < |offsets| && idx < |strides|
    requires !LowWordOverflows(modifier)
  {
    if key == FD_KEYS[idx] then Some(fds[idx])
    else if key == OFFSET_KEYS[idx] then Some(U32AsI32(offsets[idx]))
    else if key == PITCH_KEYS[idx] then Some(U32AsI32(strides[idx]))
    else if modifier == DRM_FORMAT_MOD_INVALID then None
    else if key == MODIFIER_LO_KEYS[idx] then Some(Lo32(modifier) as EglInt)
    else if key == MODIFIER_HI_KEYS[idx] then Some(U32AsI32(Hi32(modifier)))
    else None
  }

  /** The five keys of one plane are distinct from each other, from the
      header keys and from the terminator. */
  lemma PlaneKeyFacts(idx: nat)
    requires idx < PLANE_COUNT_MAX
    ensures var keys := [FD_KEYS[idx], OFFSET_KEYS[idx], PITCH_KEYS[idx], MODIFIER_LO_KEYS[idx], MODIFIER_HI_KEYS[idx]];
      && (forall i, j :: 0 <= i < j < 5 ==> keys[i] != keys[j])
      && (forall i :: 0 <= i < 5 ==> keys[i] !in HEADER_KEYS)
  {
    if idx == 0 {
    } else if idx == 1 {
    } else if idx == 2 {
    } else {
    }
  }

  /** One plane's pairs: well formed, keyed by that plane's keys, holding
      its fd, offset, pitch and (when sent) modifier words. */
  lemma PlaneAttribsLookup(idx: nat, fds: seq<i32>, offsets: seq<u32>, strides: seq<u32>, modifier: u64, key: EglInt)
    requires idx < |fds| && idx < PLANE_COUNT_MAX && idx < |offsets| && idx < |strides|
    requires !LowWordOverflows(modifier)
    ensures PlaneAttribs(idx, fds, offsets, strides, modifier).Built?
    ensures var list := PlaneAttribs(idx, fds, offsets, strides, modifier).list;
      && PairRun(list)
      && Keys(list) <= PlaneKeys(idx)
      && Lookup(list, key) == PlaneValue(idx, fds, offsets, strides, modifier, key)
  {
    PlaneKeyFacts(idx);
    var fd, off, pitch := fds[idx], U32AsI32(offsets[idx]), U32AsI32(strides[idx]);
    PrependPair(FD_KEYS[idx], fd, [], key);
    assert [FD_KEYS[idx], fd] + [] == [FD_KEYS[idx], fd];
    var base := [FD_KEYS[idx], fd] + [OFFSET_KEYS[idx], off];
    AppendPair([FD_KEYS[idx], fd], OFFSET_KEYS[idx], off, key);
    AppendPair(base, PITCH_KEYS[idx], pitch, key);
    base := base + [PITCH_KEYS[idx], pitch];
    if modifier != DRM_FORMAT_MOD_INVALID {
      var lo, hi := Lo32(modifier) as EglInt, U32AsI32(Hi32(modifier));
      AppendPair(base, MODIFIER_LO_KEYS[idx], lo, key);
      AppendPair(base + [MODIFIER_LO_KEYS[idx], lo], MODIFIER_HI_KEYS[idx], hi, key);
    }
  }

  /** Appending one pair to a run of pairs. */
  lemma AppendPair(front: seq<EglInt>, k: EglInt, v: EglInt, key: EglInt)
    requires PairRun(front) && k != EGL_NONE
    ensures PairRun(front + [k, v]) && Keys(front + [k, v]) == Keys(front) + {k}
    ensures Lookup(front + [k, v], key) ==
      if key in Keys(front) then Lookup(front, key) else if key == k then Some(v) else None
  {
    PrependPair(k, v, [], key);
    assert [k, v] + [] == [k, v];
    LookupAppend(front, [k, v], key);
  }

  /** Whether `key` is a key of one of the planes `idx..|fds|`. */
  predicate KeyOfPlanes(key: EglInt, idx: nat, fds: seq<i32>) {
    PlaneOf(key).Some? && idx <= PlaneOf(key).value < |fds|
  }

  /** The pairs of planes `idx..` answer a per-plane key from that key's
      own plane, and nothing else. */
  lemma {:induction false} PlanesFromLookup(idx: nat, fds: seq<i32>, offsets: seq<u32>, strides: seq<u32>, modifier: u64, key: EglInt)
    requires idx < |fds| && PlanesEncodable(fds, offsets, strides, modifier)
    ensures PlanesFrom(idx, fds, offsets, strides, modifier).Built?
    ensures var list := PlanesFrom(idx, fds, offsets, strides, modifier).list;
      && PairRun(list)
      && (forall k :: k in Keys(list) ==> KeyOfPlanes(k, idx, fds))
      && Lookup(list, key) ==
           if KeyOfPlanes(key, idx, fds) then PlaneValue(PlaneOf(key).value, fds, offsets, strides, modifier, key) else None
    decreases |fds| - idx
  {
    PlanesFromStep(idx, fds, offsets, strides, modifier);
    var plane := PlaneAttribs(idx, fds, offsets, strides, modifier).list;
    var rest := PlanesFrom(idx + 1, fds, offsets, strides, modifier).list;
    PlaneAttribsLookup(idx, fds, offsets, strides, modifier, key);
    if idx + 1 == |fds| {
      assert rest == [];
    } else {
      PlanesFromLookup(idx + 1, fds, offsets, strides, modifier, key);
    }
    PlanesCombine(plane, rest, idx, fds, offsets, strides, modifier, key);
  }

  /** Plane `idx`'s pairs in front of the pairs of planes `idx + 1..`. */
  lemma PlanesCombine(plane: seq<EglInt>, rest: seq<EglInt>, idx: nat, fds: seq<i32>, offsets: seq<u32>, strides: seq<u32>, modifier: u64, key: EglInt)
    requires idx < |fds| && PlanesEncodable(fds, offsets, strides, modifier)
    requires PairRun(plane) && Keys(plane) <= PlaneKeys(idx)
    requires Lookup(plane, key) == PlaneValue(idx, fds, offsets, strides, modifier, key)
    requires PairRun(rest) && forall k :: k in Keys(rest) ==> KeyOfPlanes(k, idx + 1, fds)
    requires Lookup(rest, key) ==
      if KeyOfPlanes(key, idx + 1, fds) then PlaneValue(PlaneOf(key).value, fds, offsets, strides, modifier, key) else None
    ensures PairRun(plane + rest)
    ensures forall k :: k in Keys(plane + rest) ==> KeyOfPlanes(k, idx, fds)
    ensures Lookup(plane + rest, key) ==
      if KeyOfPlanes(key, idx, fds) then PlaneValue(PlaneOf(key).value, fds, offsets, strides, modifier, key) else None
  {
    forall k | k in Keys(plane) ensures KeyOfPlanes(k, idx, fds) {
      PlaneOfUnique(k, idx);
    }
    LookupAppend(plane, rest, key);
    if key in Keys(plane) {
      PlaneOfUnique(key, idx);
    } else if PlaneOf(key) == Some(idx) {
      LookupAbsent(plane, key);
    }
  }

  /** The planes and the terminator answer exactly the keys of the planes
      sent. */
  lemma PlanesTailLookup(fds: seq<i32>, offsets: seq<u32>, strides: seq<u32>, modifier: u64, key: EglInt)
    requires PlanesEncodable(fds, offsets, strides, modifier)
    ensures PlanesFrom(0, fds, offsets, strides, modifier).Built?
    ensures Lookup(PlanesFrom(0, fds, offsets, strides, modifier).list + [EGL_NONE], key) ==
      if KeyOfPlanes(key, 0, fds) then PlaneValue(PlaneOf(key).value, fds, offsets, strides, modifier, key) else None
  {
    assert Lookup([EGL_NONE], key) == None;
    if |fds| == 0 {
      var planes := PlanesFrom(0, fds, offsets, strides, modifier).list;
      assert planes + [EGL_NONE] == [EGL_NONE];
    } else {
      PlanesFromLookup(0, fds, offsets, strides, modifier, key);
      var planes := PlanesFrom(0, fds, offsets, strides, modifier).list;
      LookupAppend(planes, [EGL_NONE], key);
      if key !in Keys(planes) {
        LookupAbsent(planes, key);
      }
    }
  }

  /** The complete reading of the list: the header keys give width, height
      and fourcc; a key of plane `j` gives that plane's value when `j` is
      one of the planes sent; every other key is absent. */
  lemma ImageAttribsLookup(width: u32, height: u32, format: VideoFormat, fds: seq<i32>, offsets: seq<u32>, strides: seq<u32>, modifier: u64, key: EglInt)
    requires SpaToDrm(format).Some? && PlanesEncodable(fds, offsets, strides, modifier)
    ensures ImageAttribs(width, height, format, fds, offsets, strides, modifier).Built?
    ensures Lookup(ImageAttribs(width, height, format, fds, offsets, strides, modifier).list, key) ==
      if key == EGL_WIDTH then Some(U32AsI32(width))
      else if key == EGL_HEIGHT then Some(U32AsI32(height))
      else if key == EGL_LINUX_DRM_FOURCC_EXT then SpaToDrm(format)
      else if KeyOfPlanes(key, 0, fds) then PlaneValue(PlaneOf(key).value, fds, offsets, strides, modifier, key)
      else None
  {
    PlanesTailLookup(fds, offsets, strides, modifier, key);
    var tail := PlanesFrom(0, fds, offsets, strides, modifier).list + [EGL_NONE];
    HeaderLookup(U32AsI32(width), U32AsI32(height), SpaToDrm(format).value, tail, key);
    ImageAttribsSplit(width, height, format, fds, offsets, strides, modifier);
    if KeyOfPlanes(key, 0, fds) {
      var j := PlaneOf(key).value;
      PlaneKeyFacts(j);
      assert key in {FD_KEYS[j], OFFSET_KEYS[j], PITCH_KEYS[j], MODIFIER_LO_KEYS[j], MODIFIER_HI_KEYS[j]};
      assert key !in HEADER_KEYS;
    }
  }

  lemma HeaderLookup(w: EglInt, h: EglInt, fourcc: EglInt, tail: seq<EglInt>, key: EglInt)
    ensures Lookup([EGL_WIDTH, w, EGL_HEIGHT, h, EGL_LINUX_DRM_FOURCC_EXT, fourcc] + tail, key) ==
      if key == EGL_WIDTH then Some(w)
      else if key == EGL_HEIGHT then Some(h)
      else if key == EGL_LINUX_DRM_FOURCC_EXT then Some(fourcc)
      else Lookup(tail, key)
  {
    PrependPair(EGL_LINUX_DRM_FOURCC_EXT, fourcc, tail, key);
    PrependPair(EGL_HEIGHT, h, [EGL_LINUX_DRM_FOURCC_EXT, fourcc] + tail, key);
    PrependPair(EGL_WIDTH, w, [EGL_HEIGHT, h] + ([EGL_LINUX_DRM_FOURCC_EXT, fourcc] + tail), key);
    assert [EGL_WIDTH, w, EGL_HEIGHT, h, EGL_LINUX_DRM_FOURCC_EXT, fourcc] + tail
      == [EGL_WIDTH, w] + ([EGL_HEIGHT, h] + ([EGL_LINUX_DRM_FOURCC_EXT, fourcc] + tail));
  }

  /** One plane as the EGL implementation reads it from the list. */
  datatype PlaneDesc = PlaneDesc(fd: i32, offset: u32, pitch: u32)

  function DecodePlane(attribs: seq<EglInt>, idx: nat): Option<PlaneDesc>
    requires idx < PLANE_COUNT_MAX
  {
    match (Lookup(attribs, FD_KEYS[idx]), Lookup(attribs, OFFSET_KEYS[idx]), Lookup(attribs, PITCH_KEYS[idx]))
    case (Some(fd), Some(offset), Some(pitch)) => Some(PlaneDesc(fd, I32AsU32(offset), I32AsU32(pitch)))
    case _ => None
  }

  /** The 64-bit modifier of plane `idx`, put together from its two words. */
  function DecodeModifier(attribs: seq<EglInt>, idx: nat): Option<int>
    requires idx < PLANE_COUNT_MAX
  {
    match (Lookup(attribs, MODIFIER_LO_KEYS[idx]), Lookup(attribs, MODIFIER_HI_KEYS[idx]))
    case (Some(lo), Some(hi)) => Some(I32AsU32(hi) * TWO_32 + I32AsU32(lo))
    case _ => None
  }

  /** The list round-trips: reading it back yields each plane's fd, offset
      and pitch in plane order, no entry for planes beyond the last, and the
      whole modifier on every plane exactly when it is not
      `DRM_FORMAT_MOD_INVALID`. */
  lemma ImageAttribsRoundTrip(width: u32, height: u32, format: VideoFormat, fds: seq<i32>, offsets: seq<u32>, strides: seq<u32>, modifier: u64, idx: nat)
    requires SpaToDrm(format).Some? && PlanesEncodable(fds, offsets, strides, modifier)
    requires idx < PLANE_COUNT_MAX
    ensures ImageAttribs(width, height, format, fds, offsets, strides, modifier).Built?
    ensures var list := ImageAttribs(width, height, format, fds, offsets, strides, modifier).list;
      && DecodePlane(list, idx) == (if idx < |fds| then Some(PlaneDesc(fds[idx], offsets[idx], strides[idx])) else None)
      && DecodeModifier(list, idx) == (if idx < |fds| && modifier != DRM_FORMAT_MOD_INVALID then Some(modifier) else None)
  {
    PlaneRoundTrip(width, height, format, fds, offsets, strides, modifier, idx);
    ModifierRoundTrip(width, height, format, fds, offsets, strides, modifier, idx);
  }

  /** The plane half of `ImageAttribsRoundTrip`: fd, offset and pitch. */
  lemma PlaneRoundTrip(width: u32, height: u32, format: VideoFormat, fds: seq<i32>, offsets: seq<u32>, strides: seq<u32>, modifier: u64, idx: nat)
    requires SpaToDrm(format).Some? && PlanesEncodable(fds, offsets, strides, modifier)
    requires idx < PLANE_COUNT_MAX
    ensures ImageAttribs(width, height, format, fds, offsets, strides, modifier).Built?
    ensures DecodePlane(ImageAttribs(width, height, format, fds, offsets, strides, modifier).list, idx)
      == (if idx < |fds| then Some(PlaneDesc(fds[idx], offsets[idx], strides[idx])) else None)
  {
    ImageAttribsLookup(width, height, format, fds, offsets, strides, modifier, FD_KEYS[idx]);
    ImageAttribsLookup(width, height, format, fds, offsets, strides, modifier, OFFSET_KEYS[idx]);
    ImageAttribsLookup(width, height, format, fds, offsets, strides, modifier, PITCH_KEYS[idx]);
    PlaneKeyFacts(idx);
    PlaneOfUnique(FD_KEYS[idx], idx);
    PlaneOfUnique(OFFSET_KEYS[idx], idx);
    PlaneOfUnique(PITCH_KEYS[idx], idx);
    if idx < |fds| {
      U32RoundTrip(offsets[idx]);
      U32RoundTrip(strides[idx]);
    }
  }

  /** The modifier half of `ImageAttribsRoundTrip`: both words, recombined. */
  lemma ModifierRoundTrip(width: u32, height: u32, format: VideoFormat, fds: seq<i32>, offsets: seq<u32>, strides: seq<u32>, modifier: u64, idx: nat)
    requires SpaToDrm(format).Some? && PlanesEncodable(fds, offsets, strides, modifier)
    requires idx < PLANE_COUNT_MAX
    ensures ImageAttribs(width, height, format, fds, offsets, strides, modifier).Built?
    ensures DecodeModifier(ImageAttribs(width, height, format, fds, offsets, strides, modifier).list, idx)
      == (if idx < |fds| && modifier != DRM_FORMAT_MOD_INVALID then Some(modifier) else None)
  {
    ImageAttribsLookup(width, height, format, fds, offsets, strides, modifier, MODIFIER_LO_KEYS[idx]);
    ImageAttribsLookup(width, height, format, fds, offsets, strides, modifier, MODIFIER_HI_KEYS[idx]);
    PlaneKeyFacts(idx);
    PlaneOfUnique(MODIFIER_LO_KEYS[idx], idx);
    PlaneOfUnique(MODIFIER_HI_KEYS[idx], idx);
    if idx < |fds| && modifier != DRM_FORMAT_MOD_INVALID {
      U32RoundTrip(Hi32(modifier));
      HalvesRecombine(modifier);
    }
  }


  // ---------------------------------------------------------------------
  // Importing a frame

  /** The import context: the extension instance, display and context. */
  datatype EglDmaBuf = EglDmaBuf(egl: InstanceExt, display: nat, context: nat)

  /** What the driver answers during one import. */
  datatype ImportDriver = ImportDriver(
    makeCurrentError: Option<int>,  // the EGL error of eglMakeCurrent, None on success
    image: nat,                     // what eglCreateImageKHR returns, NULL on failure
    lastError: Option<int>,         // what eglGetError reports after a NULL image
    bindError: GlExt.GLenum,        // glGetError after binding the image to the texture
    readError: GlExt.GLenum,        // glGetError after glGetTexImage
    texel: nat -> u8)               // byte i that glGetTexImage writes

  /** The errors `image_from_dma_buf` and `query_dma_buf_modifiers` return. */
  datatype Error =
    | InvalidPlaneCount
    | FormatNotSupported
    | EglFailure(failure: Failure)
    | GlFailure(gl: GlExt.GlError)

  /** The outcome of an import and the calls it made, in order. */
  datatype Imported = Imported(result: Outcome<seq<u8>, Error>, calls: seq<Call>)

  /** The size of the readback buffer: `strides[0] * height` on `u32`. */
  function ReadbackSize(strides: seq<u32>, height: u32): u32
    requires 0 < |strides|
  {
    WrappingMul(strides[0], height)
  }

  /** `image_from_dma_buf`.  The image is released on every path after it
      was created (`EGLImageKHR` is dropped); the texture is deleted only
      after a successful readback. */
  function ImageFromDmaBuf(dma: EglDmaBuf, width: u32, height: u32, format: VideoFormat,
                           fds: seq<i32>, strides: seq<u32>, offsets: seq<u32>, modifier: u64,
                           drv: ImportDriver): (r: Imported)
    ensures |fds| == 0 ==> r == Imported(Err(InvalidPlaneCount), [])
    ensures r.result.Ok? ==> 0 < |strides| && |r.result.value| == ReadbackSize(strides, height)
    ensures r.result.Ok? ==> ImageAttribs(width, height, format, fds, offsets, strides, modifier).Built?
    ensures r.result.Ok? <==>
      && ImageCreated(width, height, format, fds, strides, offsets, modifier, drv)
      && drv.bindError == GlExt.NO_ERROR && drv.readError == GlExt.NO_ERROR
    ensures r.result.Ok? ==> forall i :: 0 <= i < |r.result.value| ==> r.result.value[i] == drv.texel(i)
    ensures 0 < |fds| && drv.makeCurrentError.Some? ==>
      r.result == Err(EglFailure(Egl(drv.makeCurrentError.value)))
    ensures 0 < |fds| && drv.makeCurrentError.None? && ImageAttribs(width, height, format, fds, offsets, strides, modifier).Built?
            && drv.image == NULL && drv.lastError.Some? ==>
      r.result == Err(EglFailure(Egl(drv.lastError.value)))
    ensures ImageCreated(width, height, format, fds, strides, offsets, modifier, drv) && drv.bindError != GlExt.NO_ERROR ==>
      r.result == Err(GlFailure(GlExt.GlError(drv.bindError)))
    ensures ImageCreated(width, height, format, fds, strides, offsets, modifier, drv) && drv.bindError == GlExt.NO_ERROR
            && drv.readError != GlExt.NO_ERROR ==>
      r.result == Err(GlFailure(GlExt.GlError(drv.readError)))
  {
    if |fds| == 0 then Imported(Err(InvalidPlaneCount), [])
    else if drv.makeCurrentError.Some? then
      Imported(Err(EglFailure(Egl(drv.makeCurrentError.value))), [MakeCurrent(dma.display, dma.context)])
    else
      var current := [MakeCurrent(dma.display, dma.context)];
      match ImageAttribs(width, height, format, fds, offsets, strides, modifier)
      case Aborted(why) => Imported(Panic(why), current)
      case Built(attribs) =>
        var created := current + [CreateImage(dma.display, EGL_LINUX_DMA_BUF_EXT, attribs)];
        match CreateImageKhr(dma.display, drv.image, drv.lastError)
        case Panic(why) => Imported(Panic(why), created)
        case Err(failure) => Imported(Err(EglFailure(failure)), created)
        case Ok(image) =>
          var bound := created + [GenTexture, BindImageTexture(image.image)];
          match GlExt.CheckError(drv.bindError)
          case Err(e) => Imported(Err(GlFailure(e)), bound + [Drop(image)])
          case Panic(why) => Imported(Panic(why), bound + [Drop(image)])
          case Ok(_) =>
            assert |strides| > 0 by { ImageAttribsShape(width, height, format, fds, offsets, strides, modifier); }
            var size := ReadbackSize(strides, height);
            var read := bound + [ReadTexture(DrmToGl(format), size)];
            match GlExt.CheckError(drv.readError)
            case Err(e) => Imported(Err(GlFailure(e)), read + [Drop(image)])
            case Panic(why) => Imported(Panic(why), read + [Drop(image)])
            case Ok(_) => Imported(Ok(seq(size, i requires 0 <= i < size => drv.texel(i))), read + [DeleteTexture, Drop(image)])
  }

  /** The image gets created: planes present, context current, list built,
      and the driver returned a non-null image. */
  predicate ImageCreated(width: u32, height: u32, format: VideoFormat, fds: seq<i32>, strides: seq<u32>, offsets: seq<u32>, modifier: u64, drv: ImportDriver) {
    && |fds| > 0
    && drv.makeCurrentError.None?
    && ImageAttribs(width, height, format, fds, offsets, strides, modifier).Built?
    && drv.image != NULL
  }

  /** Scoped release: a created image is destroyed exactly once, with its
      own display and handle, as the last call; no other path destroys
      anything.  The texture is deleted exactly when the import succeeds. */
  lemma ImportReleasesImage(dma: EglDmaBuf, width: u32, height: u32, format: VideoFormat,
                            fds: seq<i32>, strides: seq<u32>, offsets: seq<u32>, modifier: u64, drv: ImportDriver)
    ensures var r := ImageFromDmaBuf(dma, width, height, format, fds, strides, offsets, modifier, drv);
      && (ImageCreated(width, height, format, fds, strides, offsets, modifier, drv) ==>
            && 0 < |r.calls|
            && r.calls[|r.calls| - 1] == DestroyImage(dma.display, drv.image)
            && multiset(r.calls)[DestroyImage(dma.display, drv.image)] == 1)
      && (!ImageCreated(width, height, format, fds, strides, offsets, modifier, drv) ==>
            forall c :: c in r.calls ==> !c.DestroyImage?)
      && (DeleteTexture in r.calls <==> r.result.Ok?)
  {
    if ImageCreated(width, height, format, fds, strides, offsets, modifier, drv) {
      ImportDestroysCreated(dma, width, height, format, fds, strides, offsets, modifier, drv);
    } else {
      ImportDestroysNothingElse(dma, width, height, format, fds, strides, offsets, modifier, drv);
    }
    ImportDeletesTexture(dma, width, height, format, fds, strides, offsets, modifier, drv);
  }

  /** A created image is destroyed once, as the last call. */
  lemma ImportDestroysCreated(dma: EglDmaBuf, width: u32, height: u32, format: VideoFormat,
                              fds: seq<i32>, strides: seq<u32>, offsets: seq<u32>, modifier: u64, drv: ImportDriver)
    requires ImageCreated(width, height, format, fds, strides, offsets, modifier, drv)
    ensures var r := ImageFromDmaBuf(dma, width, height, format, fds, strides, offsets, modifier, drv);
      && 0 < |r.calls|
      && r.calls[|r.calls| - 1] == DestroyImage(dma.display, drv.image)
      && multiset(r.calls)[DestroyImage(dma.display, drv.image)] == 1
  {
  }

  /** Without a created image nothing is destroyed. */
  lemma ImportDestroysNothingElse(dma: EglDmaBuf, width: u32, height: u32, format: VideoFormat,
                                  fds: seq<i32>, strides: seq<u32>, offsets: seq<u32>, modifier: u64, drv: ImportDriver)
    requires !ImageCreated(width, height, format, fds, strides, offsets, modifier, drv)
    ensures forall c :: c in ImageFromDmaBuf(dma, width, height, format, fds, strides, offsets, modifier, drv).calls ==> !c.DestroyImage?
  {
  }

  /** The texture is deleted exactly on success. */
  lemma ImportDeletesTexture(dma: EglDmaBuf, width: u32, height: u32, format: VideoFormat,
                             fds: seq<i32>, strides: seq<u32>, offsets: seq<u32>, modifier: u64, drv: ImportDriver)
    ensures var r := ImageFromDmaBuf(dma, width, height, format, fds, strides, offsets, modifier, drv);
      DeleteTexture in r.calls <==> r.result.Ok?
  {
  }

  /** When the import panics: an unencodable list (unknown format, too many
      planes, short offset or stride slices, a low modifier word of 2^31 or
      more), or a null image with no EGL error to report. */
  lemma ImportPanicsWhen(dma: EglDmaBuf, width: u32, height: u32, format: VideoFormat,
                         fds: seq<i32>, strides: seq<u32>, offsets: seq<u32>, modifier: u64, drv: ImportDriver)
    requires |fds| > 0 && drv.makeCurrentError.None?
    ensures var r := ImageFromDmaBuf(dma, width, height, format, fds, strides, offsets, modifier, drv);
      r.result.Panic? <==>
        || SpaToDrm(format).None?
        || !PlanesEncodable(fds, offsets, strides, modifier)
        || (drv.image == NULL && drv.lastError.None?)
  {
    ImageAttribsShape(width, height, format, fds, offsets, strides, modifier);
  }

  /** The list handed to `eglCreateImageKHR` is the one `ImageAttribs`
      builds, targeted at `EGL_LINUX_DMA_BUF_EXT`, and the readback asks for
      the GL format of the stream format and `strides[0] * height` bytes. */
  lemma ImportCallsOnSuccess(dma: EglDmaBuf, width: u32, height: u32, format: VideoFormat,
                             fds: seq<i32>, strides: seq<u32>, offsets: seq<u32>, modifier: u64, drv: ImportDriver)
    requires ImageFromDmaBuf(dma, width, height, format, fds, strides, offsets, modifier, drv).result.Ok?
    ensures var r := ImageFromDmaBuf(dma, width, height, format, fds, strides, offsets, modifier, drv);
      var attribs := ImageAttribs(width, height, format, fds, offsets, strides, modifier).list;
      r.calls == [MakeCurrent(dma.display, dma.context),
                  CreateImage(dma.display, EGL_LINUX_DMA_BUF_EXT, attribs),
                  GenTexture, BindImageTexture(drv.image),
                  ReadTexture(DrmToGl(format), ReadbackSize(strides, height)),
                  DeleteTexture, DestroyImage(dma.display, drv.image)]
  {
  }

  // ---------------------------------------------------------------------
  // Modifiers

  /** What the driver answers to the two DMA-BUF queries. */
  datatype Driver = Driver(formats: FormatsAnswer, modifiers: EglInt -> ModifiersAnswer)

  /** `query_dma_buf_modifiers`: the driver's modifiers for the format's
      fourcc with `DRM_FORMAT_MOD_INVALID` appended; fails when the fourcc is
      not among the driver's formats. */
  function QueryDmaBufModifiers(dma: EglDmaBuf, drv: Driver, format: VideoFormat): (r: Outcome<seq<u64>, Error>)
    ensures SpaToDrm(format).Some? ==> !r.Panic?
    ensures r.Panic? ==> r.abort == UnwrapOnNone && QueryDmaBufFormats(dma.egl, drv.formats).Ok?
    ensures r.Ok? ==> 0 < |r.value| && r.value[|r.value| - 1] == DRM_FORMAT_MOD_INVALID
    ensures r.Ok? <==>
      && SpaToDrm(format).Some?
      && QueryDmaBufFormats(dma.egl, drv.formats).Ok?
      && SpaToDrm(format).value in QueryDmaBufFormats(dma.egl, drv.formats).value
      && QueryDmaBufModifiersExt(dma.egl, drv.modifiers(SpaToDrm(format).value)).Ok?
    ensures r.Ok? ==> r.value[..|r.value| - 1] == QueryDmaBufModifiersExt(dma.egl, drv.modifiers(SpaToDrm(format).value)).value
  {
    match QueryDmaBufFormats(dma.egl, drv.formats)
    case Panic(why) => Panic(why)
    case Err(failure) => Err(EglFailure(failure))
    case Ok(formats) =>
      match SpaToDrm(format)
      case None => Panic(UnwrapOnNone)
      case Some(fourcc) =>
        if fourcc !in formats then Err(FormatNotSupported)
        else match QueryDmaBufModifiersExt(dma.egl, drv.modifiers(fourcc))
          case Panic(why) => Panic(why)
          case Err(failure) => Err(EglFailure(failure))
          case Ok(modifiers) => Ok(modifiers + [DRM_FORMAT_MOD_INVALID])
  }

  /** `iter_to_array`: the first `size` items in a fixed-size array, the
      remaining slots left at the default value. */
  method IterToArray<T>(items: seq<T>, size: nat, default: T) returns (filled: seq<T>)
    ensures |filled| == size
    ensures forall i :: 0 <= i < size ==> filled[i] == if i < |items| then items[i] else default
  {
    var slots := new T[size](_ => default);
    var i := 0;
    while i < size && i < |items|
      invariant 0 <= i <= size && i <= |items|
      invariant forall k :: 0 <= k < size ==> slots[k] == if k < i then items[k] else default
    {
      slots[i] := items[i];
      i := i + 1;
    }
    filled := slots[..];
  }
}

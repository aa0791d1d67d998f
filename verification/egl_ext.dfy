/** `src/egl_ext.rs`: the EGL extension layer.

    Covers the attribute keys of the Khronos `EGL_EXT_image_dma_buf_import`
    and `EGL_EXT_image_dma_buf_import_modifiers` extensions, the probing of
    the space-separated extension strings, which optional entry points get
    installed, the two-call count protocol of the DMA-BUF queries, and the
    image handle that destroys itself when dropped.  What the EGL library
    answers is always an input.
 */
module EglExt {
  import opened Wrappers
  import opened Ints
  import opened DriverCalls

  type EglInt = i32

  // Core EGL tokens used in attribute lists.
  const EGL_NONE: EglInt := 0x3038
  const EGL_HEIGHT: EglInt := 0x3056
  const EGL_WIDTH: EglInt := 0x3057

  const EGL_LINUX_DMA_BUF_EXT: EglInt := 0x3270
  const EGL_LINUX_DRM_FOURCC_EXT: EglInt := 0x3271

  const EGL_DMA_BUF_PLANE0_FD_EXT: EglInt := 0x3272
  const EGL_DMA_BUF_PLANE0_OFFSET_EXT: EglInt := 0x3273
  const EGL_DMA_BUF_PLANE0_PITCH_EXT: EglInt := 0x3274
  const EGL_DMA_BUF_PLANE1_FD_EXT: EglInt := 0x3275
  const EGL_DMA_BUF_PLANE1_OFFSET_EXT: EglInt := 0x3276
  const EGL_DMA_BUF_PLANE1_PITCH_EXT: EglInt := 0x3277
  const EGL_DMA_BUF_PLANE2_FD_EXT: EglInt := 0x3278
  const EGL_DMA_BUF_PLANE2_OFFSET_EXT: EglInt := 0x3279
  const EGL_DMA_BUF_PLANE2_PITCH_EXT: EglInt := 0x327A
  const EGL_DMA_BUF_PLANE3_FD_EXT: EglInt := 0x3440
  const EGL_DMA_BUF_PLANE3_OFFSET_EXT: EglInt := 0x3441
  const EGL_DMA_BUF_PLANE3_PITCH_EXT: EglInt := 0x3442
  const EGL_DMA_BUF_PLANE0_MODIFIER_LO_EXT: EglInt := 0x3443
  const EGL_DMA_BUF_PLANE0_MODIFIER_HI_EXT: EglInt := 0x3444
  const EGL_DMA_BUF_PLANE1_MODIFIER_LO_EXT: EglInt := 0x3445
  const EGL_DMA_BUF_PLANE1_MODIFIER_HI_EXT: EglInt := 0x3446
  const EGL_DMA_BUF_PLANE2_MODIFIER_LO_EXT: EglInt := 0x3447
  const EGL_DMA_BUF_PLANE2_MODIFIER_HI_EXT: EglInt := 0x3448
  const EGL_DMA_BUF_PLANE3_MODIFIER_LO_EXT: EglInt := 0x3449
  const EGL_DMA_BUF_PLANE3_MODIFIER_HI_EXT: EglInt := 0x344A

  /** The per-plane key tables, indexed by plane number. */
  const FD_KEYS: seq<EglInt> := [EGL_DMA_BUF_PLANE0_FD_EXT, EGL_DMA_BUF_PLANE1_FD_EXT,
                                 EGL_DMA_BUF_PLANE2_FD_EXT, EGL_DMA_BUF_PLANE3_FD_EXT]
  const OFFSET_KEYS: seq<EglInt> := [EGL_DMA_BUF_PLANE0_OFFSET_EXT, EGL_DMA_BUF_PLANE1_OFFSET_EXT,
                                     EGL_DMA_BUF_PLANE2_OFFSET_EXT, EGL_DMA_BUF_PLANE3_OFFSET_EXT]
  const PITCH_KEYS: seq<EglInt> := [EGL_DMA_BUF_PLANE0_PITCH_EXT, EGL_DMA_BUF_PLANE1_PITCH_EXT,
                                    EGL_DMA_BUF_PLANE2_PITCH_EXT, EGL_DMA_BUF_PLANE3_PITCH_EXT]
  const MODIFIER_LO_KEYS: seq<EglInt> := [EGL_DMA_BUF_PLANE0_MODIFIER_LO_EXT, EGL_DMA_BUF_PLANE1_MODIFIER_LO_EXT,
                                          EGL_DMA_BUF_PLANE2_MODIFIER_LO_EXT, EGL_DMA_BUF_PLANE3_MODIFIER_LO_EXT]
  const MODIFIER_HI_KEYS: seq<EglInt> := [EGL_DMA_BUF_PLANE0_MODIFIER_HI_EXT, EGL_DMA_BUF_PLANE1_MODIFIER_HI_EXT,
                                          EGL_DMA_BUF_PLANE2_MODIFIER_HI_EXT, EGL_DMA_BUF_PLANE3_MODIFIER_HI_EXT]

  const PLANE_COUNT_MAX: nat := 4

  /** The five keys that describe plane `idx`. */
  function PlaneKeys(idx: nat): set<EglInt>
    requires idx < PLANE_COUNT_MAX
  {
    {FD_KEYS[idx], OFFSET_KEYS[idx], PITCH_KEYS[idx], MODIFIER_LO_KEYS[idx], MODIFIER_HI_KEYS[idx]}
  }

  /** The keys that are not about any one plane. */
  const HEADER_KEYS: set<EglInt> := {EGL_WIDTH, EGL_HEIGHT, EGL_LINUX_DRM_FOURCC_EXT, EGL_NONE}

  /** The twenty per-plane keys are pairwise distinct: five per plane, no key
      shared between two planes, none equal to a header key or the
      terminator. */
  lemma PlaneKeysDistinct()
    ensures forall i :: 0 <= i < PLANE_COUNT_MAX ==> |PlaneKeys(i)| == 5
    ensures forall i, j :: 0 <= i < j < PLANE_COUNT_MAX ==> PlaneKeys(i) !! PlaneKeys(j)
    ensures forall i :: 0 <= i < PLANE_COUNT_MAX ==> PlaneKeys(i) !! HEADER_KEYS
  {
    forall i | 0 <= i < PLANE_COUNT_MAX
      ensures |PlaneKeys(i)| == 5 && PlaneKeys(i) !! HEADER_KEYS
    {
      PlaneKeysOfOne(i);
    }
    forall i, j | 0 <= i < j < PLANE_COUNT_MAX
      ensures PlaneKeys(i) !! PlaneKeys(j)
    {
      PlaneKeysOfTwo(i, j);
    }
  }

  /** One plane's keys: five of them, none a header key. */
  lemma PlaneKeysOfOne(i: nat)
    requires i < PLANE_COUNT_MAX
    ensures |PlaneKeys(i)| == 5 && PlaneKeys(i) !! HEADER_KEYS
  {
    PlaneKeysShape(i);
    FiveDistinct(FD_KEYS[i], OFFSET_KEYS[i], PITCH_KEYS[i], MODIFIER_LO_KEYS[i], MODIFIER_HI_KEYS[i]);
  }

  /** Two planes share no key. */
  lemma PlaneKeysOfTwo(i: nat, j: nat)
    requires i < j < PLANE_COUNT_MAX
    ensures PlaneKeys(i) !! PlaneKeys(j)
  {
    PlaneKeysShape(i);
    PlaneKeysShape(j);
  }

  /** Five pairwise different values make a set of five. */
  lemma FiveDistinct(a: int, b: int, c: int, d: int, e: int)
    requires a < b < c && c < d < e
    ensures |{a, b, c, d, e}| == 5
  {
    assert |{a, b}| == 2;
    assert |{a, b, c}| == 3;
    assert |{a, b, c, d}| == 4;
  }

  /** Plane `i`'s keys: its three plane keys sit in one run below 0x3443 (or
      in the run at 0x3440 for the last plane), its two modifier keys at
      0x3443 + 2i. */
  lemma PlaneKeysShape(i: nat)
    requires i < PLANE_COUNT_MAX
    ensures MODIFIER_LO_KEYS[i] == 0x3443 + 2 * i && MODIFIER_HI_KEYS[i] == 0x3444 + 2 * i
    ensures i < 3 ==> FD_KEYS[i] == 0x3272 + 3 * i
    ensures i == 3 ==> FD_KEYS[i] == 0x3440
    ensures OFFSET_KEYS[i] == FD_KEYS[i] + 1 && PITCH_KEYS[i] == FD_KEYS[i] + 2
  {
  }

  // ---------------------------------------------------------------------
  // Extension strings

  /** `str::split(' ')`: the pieces between single spaces, empty pieces
      included, so a string with k spaces has k + 1 pieces. */
  function Split(s: string): (parts: seq<string>)
    ensures 0 < |parts|
    ensures forall k :: 0 <= k < |parts| ==> ' ' !in parts[k]
    decreases |s|
  {
    if |s| == 0 then [""]
    else
      var rest := Split(s[1..]);
      if s[0] == ' ' then [""] + rest
      else [[s[0]] + rest[0]] + rest[1..]
  }

  /** The pieces put back together with one space between neighbours. */
  function Join(parts: seq<string>): string
    requires 0 < |parts|
    decreases |parts|
  {
    if |parts| == 1 then parts[0] else parts[0] + " " + Join(parts[1..])
  }

  lemma {:induction false} JoinSplit(s: string)
    ensures Join(Split(s)) == s
    decreases |s|
  {
    if |s| > 0 {
      var rest := Split(s[1..]);
      JoinSplit(s[1..]);
      if s[0] == ' ' {
        assert Split(s)[1..] == rest;
      } else {
        var parts := Split(s);
        assert parts[1..] == rest[1..];
        if |rest| > 1 {
          assert Join(rest) == rest[0] + " " + Join(rest[1..]);
        }
      }
    }
  }

  lemma {:induction false} SplitJoin(parts: seq<string>)
    requires 0 < |parts|
    requires forall k :: 0 <= k < |parts| ==> ' ' !in parts[k]
    ensures Split(Join(parts)) == parts
    decreases |parts|, |parts[0]|
  {
    if |parts[0]| == 0 {
      if |parts| > 1 {
        SplitJoin(parts[1..]);
        assert Join(parts) == " " + Join(parts[1..]);
        assert (" " + Join(parts[1..]))[1..] == Join(parts[1..]);
      }
    } else {
      var tail := [parts[0][1..]] + parts[1..];
      assert tail[1..] == parts[1..];
      SplitJoin(tail);
      assert Join(parts) == [parts[0][0]] + Join(tail) by {
        if |parts| > 1 {
          assert Join(tail) == parts[0][1..] + " " + Join(parts[1..]);
        }
      }
      assert Join(parts)[1..] == Join(tail);
      assert [parts[0][0]] + parts[0][1..] == parts[0];
    }
  }

  /** A `Split` iterator: the pieces and how many were consumed already. */
  datatype TokenIter = TokenIter(tokens: seq<string>, pos: nat)

  /** `Iterator::find`: consume pieces up to and including the first that
      equals `wanted`; when none does, the iterator ends exhausted. */
  function Find(it: TokenIter, wanted: string): (r: (bool, TokenIter))
    requires it.pos <= |it.tokens|
    ensures r.1.tokens == it.tokens && it.pos <= r.1.pos <= |it.tokens|
    ensures r.0 <==> exists j :: it.pos <= j < |it.tokens| && it.tokens[j] == wanted
    ensures r.0 ==> it.pos < r.1.pos && it.tokens[r.1.pos - 1] == wanted
    ensures r.0 ==> forall j :: it.pos <= j < r.1.pos - 1 ==> it.tokens[j] != wanted
    ensures !r.0 ==> r.1.pos == |it.tokens|
    decreases |it.tokens| - it.pos
  {
    if it.pos == |it.tokens| then (false, it)
    else if it.tokens[it.pos] == wanted then (true, TokenIter(it.tokens, it.pos + 1))
    else Find(TokenIter(it.tokens, it.pos + 1), wanted)
  }

  /** Some occurrence of `first` is followed, later, by one of `second`. */
  predicate OccursInOrder(tokens: seq<string>, first: string, second: string) {
    exists i, j :: 0 <= i < j < |tokens| && tokens[i] == first && tokens[j] == second
  }

  /** Two `find` calls on ONE `split(' ')` iterator, as both
      `InstanceExt::new` and `load_display_extensions` do: the second search
      starts where the first one stopped. */
  function ProbeInOrder(extensions: string, first: string, second: string): (bool, bool) {
    var (hasFirst, rest) := Find(TokenIter(Split(extensions), 0), first);
    var (hasSecond, _) := Find(rest, second);
    (hasFirst, hasSecond)
  }

  /** The first probe is plain token membership; the second succeeds exactly
      when `second` occurs AFTER an occurrence of `first`. */
  lemma ProbeInOrderSpec(extensions: string, first: string, second: string)
    ensures var tokens := Split(extensions);
      && (ProbeInOrder(extensions, first, second).0 <==> first in tokens)
      && (ProbeInOrder(extensions, first, second).1 <==> OccursInOrder(tokens, first, second))
  {
    var tokens := Split(extensions);
    var (hasFirst, rest) := Find(TokenIter(tokens, 0), first);
    if hasFirst {
      var i := rest.pos - 1;
      assert tokens[i] == first;
      if exists i', j :: 0 <= i' < j < |tokens| && tokens[i'] == first && tokens[j] == second {
        var i', j :| 0 <= i' < j < |tokens| && tokens[i'] == first && tokens[j] == second;
        assert i <= i';
        assert rest.pos <= j;
      }
    } else {
      assert forall j :: 0 <= j < |tokens| ==> tokens[j] != first;
    }
  }

  /** The quirk of the shared iterator: both tokens present, but in the other
      order, and the second one is reported missing. */
  lemma ProbeMissesReversedPair(first: string, second: string)
    requires first != second && ' ' !in first && ' ' !in second
    ensures ProbeInOrder(second + " " + first, first, second) == (true, false)
  {
    var ext := second + " " + first;
    SplitJoin([second, first]);
    assert Join([second, first]) == ext;
    ProbeInOrderSpec(ext, first, second);
  }

  // ---------------------------------------------------------------------
  // The extension instance

  /** Errors of `EglExtError`. */
  datatype ExtError =
    | NoNoDisplayExtensions
    | NoDisplayExtensions
    | EglGetError
    | ExtensionUnavailable
    | NoDmaBufFormats
    | NoDmaBufModifiers

  /** What an `InstanceExt` call can propagate with `?`. */
  datatype Failure =
    | Ext(ext: ExtError)       // an `EglExtError`
    | Egl(code: int)           // an `egl::Error` (the EGL error code)
    | NotUtf8                  // `CStr::to_str` rejected the extension string

  /** What `eglQueryString(.., EGL_EXTENSIONS)` gave back. */
  datatype StringQuery = Answered(text: string) | QueryFailed(code: int) | InvalidUtf8

  /** An entry point obtained from `eglGetProcAddress`. */
  datatype EntryPoint = EntryPoint(symbol: string)

  datatype InstanceExt = InstanceExt(
    getPlatformDisplay: EntryPoint,
    createImage: EntryPoint,
    destroyImage: EntryPoint,
    queryDmaBufFormats: Option<EntryPoint>,
    queryDmaBufModifiers: Option<EntryPoint>)

  const PLATFORM_BASE_EXT: string := "EGL_EXT_platform_base"
  const PLATFORM_GBM_EXT: string := "EGL_MESA_platform_gbm"
  const IMPORT_EXT: string := "EGL_EXT_image_dma_buf_import"
  const IMPORT_MODIFIERS_EXT: string := "EGL_EXT_image_dma_buf_import_modifiers"

  const GET_PLATFORM_DISPLAY: string := "eglGetPlatformDisplayEXT"
  const CREATE_IMAGE: string := "eglCreateImageKHR"
  const DESTROY_IMAGE: string := "eglDestroyImageKHR"
  const QUERY_FORMATS: string := "eglQueryDmaBufFormatsEXT"
  const QUERY_MODIFIERS: string := "eglQueryDmaBufModifiersEXT"

  function StringFailure(q: StringQuery): Failure
    requires !q.Answered?
  {
    if q.QueryFailed? then Egl(q.code) else NotUtf8
  }

  /** `InstanceExt::new`.  `clientExtensions` is the client extension
      string; `resolvable` the symbols `eglGetProcAddress` can find (each
      lookup is `unwrap`ped). */
  function NewInstanceExt(clientExtensions: StringQuery, resolvable: set<string>): (r: Outcome<InstanceExt, Failure>)
    ensures !clientExtensions.Answered? ==> r == Err(StringFailure(clientExtensions))
    ensures clientExtensions.Answered? ==>
      var tokens := Split(clientExtensions.text);
      && (r.Err? <==> !OccursInOrder(tokens, PLATFORM_BASE_EXT, PLATFORM_GBM_EXT))
      && (r.Err? ==> r.error == Ext(NoNoDisplayExtensions))
    ensures r.Panic? <==>
      && clientExtensions.Answered?
      && OccursInOrder(Split(clientExtensions.text), PLATFORM_BASE_EXT, PLATFORM_GBM_EXT)
      && !({GET_PLATFORM_DISPLAY, CREATE_IMAGE, DESTROY_IMAGE} <= resolvable)
    ensures r.Ok? ==> r.value.queryDmaBufFormats.None? && r.value.queryDmaBufModifiers.None?
  {
    match clientExtensions
    case QueryFailed(code) => Err(Egl(code))
    case InvalidUtf8 => Err(NotUtf8)
    case Answered(text) =>
      ProbeInOrderSpec(text, PLATFORM_BASE_EXT, PLATFORM_GBM_EXT);
      var (hasBase, hasGbm) := ProbeInOrder(text, PLATFORM_BASE_EXT, PLATFORM_GBM_EXT);
      if !hasBase || !hasGbm then Err(Ext(NoNoDisplayExtensions))
      else if GET_PLATFORM_DISPLAY !in resolvable || CREATE_IMAGE !in resolvable || DESTROY_IMAGE !in resolvable then
        Panic(UnwrapOnNone)
      else
        Ok(InstanceExt(EntryPoint(GET_PLATFORM_DISPLAY), EntryPoint(CREATE_IMAGE), EntryPoint(DESTROY_IMAGE), None, None))
  }

  /** `load_display_extensions`: installs the formats query when the import
      token is found and the modifiers query when the modifiers token is
      found on the same iterator; a missing token is never an error, a
      missing symbol for a found token panics (`expect`). */
  function LoadDisplayExtensions(inst: InstanceExt, displayExtensions: StringQuery, resolvable: set<string>): (r: Outcome<InstanceExt, Failure>)
    ensures !displayExtensions.Answered? ==> r == Err(StringFailure(displayExtensions))
    ensures displayExtensions.Answered? ==> !r.Err?
    ensures r.Ok? ==> var (hasImport, hasModifiers) := ProbeInOrder(displayExtensions.text, IMPORT_EXT, IMPORT_MODIFIERS_EXT);
      && r.value.queryDmaBufFormats == (if hasImport then Some(EntryPoint(QUERY_FORMATS)) else inst.queryDmaBufFormats)
      && r.value.queryDmaBufModifiers == (if hasModifiers then Some(EntryPoint(QUERY_MODIFIERS)) else inst.queryDmaBufModifiers)
      && r.value.getPlatformDisplay == inst.getPlatformDisplay
      && r.value.createImage == inst.createImage
      && r.value.destroyImage == inst.destroyImage
    ensures displayExtensions.Answered? ==> var (hasImport, hasModifiers) := ProbeInOrder(displayExtensions.text, IMPORT_EXT, IMPORT_MODIFIERS_EXT);
      (r.Panic? <==> (hasImport && QUERY_FORMATS !in resolvable) || (hasModifiers && QUERY_MODIFIERS !in resolvable))
  {
    match displayExtensions
    case QueryFailed(code) => Err(Egl(code))
    case InvalidUtf8 => Err(NotUtf8)
    case Answered(text) =>
      var (hasImport, hasModifiers) := ProbeInOrder(text, IMPORT_EXT, IMPORT_MODIFIERS_EXT);
      if hasImport && QUERY_FORMATS !in resolvable then Panic(UnwrapOnNone)
      else
        var withFormats := if hasImport then inst.(queryDmaBufFormats := Some(EntryPoint(QUERY_FORMATS))) else inst;
        if hasModifiers && QUERY_MODIFIERS !in resolvable then Panic(UnwrapOnNone)
        else Ok(if hasModifiers then withFormats.(queryDmaBufModifiers := Some(EntryPoint(QUERY_MODIFIERS))) else withFormats)
  }

  /** On a fresh instance the installed entry points follow the two tokens:
      the formats query iff the import token is present, the modifiers query
      iff the modifiers token comes after it. */
  lemma LoadOnFreshInstance(clientExtensions: StringQuery, displayExtensions: string, resolvable: set<string>)
    requires NewInstanceExt(clientExtensions, resolvable).Ok?
    requires QUERY_FORMATS in resolvable && QUERY_MODIFIERS in resolvable
    ensures var inst := NewInstanceExt(clientExtensions, resolvable).value;
      var r := LoadDisplayExtensions(inst, Answered(displayExtensions), resolvable);
      var tokens := Split(displayExtensions);
      && r.Ok?
      && (r.value.queryDmaBufFormats.Some? <==> IMPORT_EXT in tokens)
      && (r.value.queryDmaBufModifiers.Some? <==> OccursInOrder(tokens, IMPORT_EXT, IMPORT_MODIFIERS_EXT))
  {
    ProbeInOrderSpec(displayExtensions, IMPORT_EXT, IMPORT_MODIFIERS_EXT);
  }

  // ---------------------------------------------------------------------
  // The count protocol of the DMA-BUF queries

  /** `vec![zero; len]` after the driver wrote `written` into its front. */
  function Overwrite<T>(len: nat, written: seq<T>, zero: T): (v: seq<T>)
    ensures |v| == len
    ensures forall i :: 0 <= i < len ==> v[i] == (if i < |written| then written[i] else zero)
  {
    if len <= |written| then written[..len] else written + seq(len - |written|, _ => zero)
  }

  /** The driver's answers to the two calls of `eglQueryDmaBufFormatsEXT`:
      the first reports a count, the second fills the buffer. */
  datatype FormatsAnswer = FormatsAnswer(firstOk: bool, count: i32, secondOk: bool, written: seq<EglInt>)

  /** The same for `eglQueryDmaBufModifiersEXT` on one format. */
  datatype ModifiersAnswer = ModifiersAnswer(firstOk: bool, count: i32, secondOk: bool, written: seq<u64>)

  /** `query_dma_buf_formats`. */
  function QueryDmaBufFormats(inst: InstanceExt, answer: FormatsAnswer): (r: Outcome<seq<EglInt>, Failure>)
    ensures !r.Panic?
    ensures inst.queryDmaBufFormats.None? ==> r == Err(Ext(ExtensionUnavailable))
    ensures inst.queryDmaBufFormats.Some? ==>
      && (r.Ok? <==> answer.firstOk && answer.count > 0 && answer.secondOk)
      && (r.Err? ==> r.error == Ext(NoDmaBufFormats))
    ensures r.Ok? ==> |r.value| == answer.count
    ensures r.Ok? ==> forall i :: 0 <= i < |r.value| ==> r.value[i] == (if i < |answer.written| then answer.written[i] else 0)
  {
    if inst.queryDmaBufFormats.Some? then
      if !answer.firstOk || answer.count <= 0 then Err(Ext(NoDmaBufFormats))
      else if answer.secondOk then Ok(Overwrite(answer.count, answer.written, 0))
      else Err(Ext(NoDmaBufFormats))
    else Err(Ext(ExtensionUnavailable))
  }

  /** `query_dma_buf_modifiers_ext`.  Unlike the formats query, a missing
      entry point is reported as `NoDmaBufModifiers`. */
  function QueryDmaBufModifiersExt(inst: InstanceExt, answer: ModifiersAnswer): (r: Outcome<seq<u64>, Failure>)
    ensures !r.Panic?
    ensures r.Err? ==> r.error == Ext(NoDmaBufModifiers)
    ensures r.Ok? <==> inst.queryDmaBufModifiers.Some? && answer.firstOk && answer.count > 0 && answer.secondOk
    ensures r.Ok? ==> |r.value| == answer.count
    ensures r.Ok? ==> forall i :: 0 <= i < |r.value| ==> r.value[i] == (if i < |answer.written| then answer.written[i] else 0)
  {
    if inst.queryDmaBufModifiers.Some? then
      if !answer.firstOk || answer.count <= 0 then Err(Ext(NoDmaBufModifiers))
      else if !answer.secondOk then Err(Ext(NoDmaBufModifiers))
      else Ok(Overwrite(answer.count, answer.written, 0))
    else Err(Ext(NoDmaBufModifiers))
  }

  // ---------------------------------------------------------------------
  // Images

  /** `EGLImageKHR`: a non-null image and the display it belongs to. */
  datatype EglImage = EglImage(image: nat, display: nat)

  const NULL: nat := 0

  /** `create_image_khr`.  `returned` is the pointer the driver returned,
      `lastError` what `eglGetError` reports afterwards (`unwrap`ped when
      the pointer is null). */
  function CreateImageKhr(display: nat, returned: nat, lastError: Option<int>): (r: Outcome<EglImage, Failure>)
    ensures r.Ok? <==> returned != NULL
    ensures r.Ok? ==> r.value.image == returned && r.value.display == display
    ensures r.Err? <==> returned == NULL && lastError.Some?
    ensures r.Err? ==> r.error == Egl(lastError.value)
  {
    if returned == NULL then
      if lastError.Some? then Err(Egl(lastError.value)) else Panic(UnwrapOnNone)
    else Ok(EglImage(returned, display))
  }

  /** `impl Drop for EGLImageKHR`: the one call dropping the handle makes. */
  function Drop(img: EglImage): Call
  {
    DestroyImage(img.display, img.image)
  }

  /** An image made by `create_image_khr` destroys, when dropped, the very
      pointer the driver returned, on the display it was created on. */
  lemma CreatedImageDestroysItself(display: nat, returned: nat, lastError: Option<int>)
    requires CreateImageKhr(display, returned, lastError).Ok?
    ensures Drop(CreateImageKhr(display, returned, lastError).value) == DestroyImage(display, returned)
  {
  }
}

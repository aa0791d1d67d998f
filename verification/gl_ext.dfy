/** `src/gl_ext.rs`: classification of the GL error state and the message
    each error code is displayed with.  `glGetError` itself is foreign; the
    code it returned is an input.
 */
module GlExt {
  import opened Wrappers
  import opened Ints

  type GLenum = u32

  const NO_ERROR: GLenum := 0
  const INVALID_ENUM: GLenum := 0x0500
  const INVALID_VALUE: GLenum := 0x0501
  const INVALID_OPERATION: GLenum := 0x0502
  const STACK_OVERFLOW: GLenum := 0x0503
  const STACK_UNDERFLOW: GLenum := 0x0504
  const OUT_OF_MEMORY: GLenum := 0x0505
  const INVALID_FRAMEBUFFER_OPERATION: GLenum := 0x0506

  /** Pixel formats `glGetTexImage` is asked for. */
  const RGB: GLenum := 0x1907
  const RGBA: GLenum := 0x1908
  const BGR: GLenum := 0x80E0
  const BGRA: GLenum := 0x80E1

  /** `GlError`: a non-zero code observed from `glGetError`. */
  datatype GlError = GlError(code: GLenum)

  /** `check_error`, given the code `glGetError` returned. */
  function CheckError(observed: GLenum): (r: Outcome<(), GlError>)
    ensures !r.Panic?
    ensures r.Ok? <==> observed == NO_ERROR
    ensures r.Err? ==> r.error.code == observed
  {
    if observed == NO_ERROR then Ok(()) else Err(GlError(observed))
  }

  /** The codes `Display` has a fixed message for, `NO_ERROR` included. */
  predicate IsNamed(code: GLenum) {
    code == NO_ERROR || INVALID_ENUM <= code <= INVALID_FRAMEBUFFER_OPERATION
  }

  const UNRECOGNIZED_PREFIX: string := "Unrecognized: "

  /** `impl Display for GlError`. */
  function Message(e: GlError): (s: string)
    ensures |s| > 0
    ensures s == "Ok" <==> e.code == NO_ERROR
    ensures !IsNamed(e.code) ==> s == UNRECOGNIZED_PREFIX + Decimal(e.code)
    ensures IsNamed(e.code) <==> s[0] != 'U'
  {
    var code := e.code;
    if code == NO_ERROR then "Ok"
    else if code == INVALID_ENUM then "Invalid enum"
    else if code == INVALID_VALUE then "Invalid value"
    else if code == INVALID_OPERATION then "Invalid operation"
    else if code == STACK_OVERFLOW then "Stack overflow"
    else if code == STACK_UNDERFLOW then "Stack underflow"
    else if code == OUT_OF_MEMORY then "Out of memory"
    else if code == INVALID_FRAMEBUFFER_OPERATION then "Invalid framebuffer operation"
    else UNRECOGNIZED_PREFIX + Decimal(code)
  }

  /** Distinct error codes are never displayed alike, so the message
      identifies the code. */
  lemma MessageInjective(a: GlError, b: GlError)
    requires Message(a) == Message(b)
    ensures a == b
  {
    if !IsNamed(a.code) && !IsNamed(b.code) {
      var pa, pb := Message(a), Message(b);
      assert Decimal(a.code) == pa[|UNRECOGNIZED_PREFIX|..];
      assert Decimal(b.code) == pb[|UNRECOGNIZED_PREFIX|..];
      ParseDecimalInverts(a.code);
      ParseDecimalInverts(b.code);
    }
  }

  // Decimal rendering of a code, as `{}` formats an unsigned integer.

  function DigitChar(d: nat): (c: char)
    requires d < 10
    ensures '0' <= c <= '9'
  {
    ['0', '1', '2', '3', '4', '5', '6', '7', '8', '9'][d]
  }

  function DigitValue(c: char): (d: nat)
    requires '0' <= c <= '9'
    ensures d < 10
  {
    (c as int) - ('0' as int)
  }

  predicate AllDigits(s: string) {
    forall i :: 0 <= i < |s| ==> '0' <= s[i] <= '9'
  }

  /** Base-10 digits of `n`, most significant first, no leading zero. */
  function Decimal(n: nat): (s: string)
    ensures 0 < |s| && AllDigits(s)
    ensures s[0] == '0' ==> n == 0
    decreases n
  {
    if n < 10 then [DigitChar(n)] else Decimal(n / 10) + [DigitChar(n % 10)]
  }

  /** The value of a string of decimal digits. */
  function ParseDecimal(s: string): nat
    requires AllDigits(s)
    decreases |s|
  {
    if |s| == 0 then 0 else ParseDecimal(s[..|s| - 1]) * 10 + DigitValue(s[|s| - 1])
  }

  lemma {:induction false} ParseDecimalInverts(n: nat)
    ensures ParseDecimal(Decimal(n)) == n
    decreases n
  {
    var s := Decimal(n);
    if n >= 10 {
      assert s[..|s| - 1] == Decimal(n / 10);
      ParseDecimalInverts(n / 10);
    }
  }
}

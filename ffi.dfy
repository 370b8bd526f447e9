/** Status handling of the C binding (src/lib.rs): a negative `c_int`
    status is an OS error whose code is the negated status. */
module Ffi {
  import opened Wrappers

  const I32_MIN: int := -0x8000_0000
  const I32_MAX: int := 0x7FFF_FFFF
  const U64_MAX: nat := 0xFFFF_FFFF_FFFF_FFFF

  /** Linux errno values the binding produces itself. */
  const EINVAL: int := 22
  const EOVERFLOW: int := 75

  predicate IsI32(x: int) { I32_MIN <= x <= I32_MAX }

  /** A failure status as the C API returns it: a negated errno. */
  predicate IsErrno(x: int) { I32_MIN < x < 0 }

  /** A status the C API returns: an `i32`, negative only as a negated errno. */
  predicate IsStatus(x: int) { IsI32(x) && (x < 0 ==> IsErrno(x)) }

  /** `std::io::Error`: a raw OS error, or the `InvalidInput` error that
      `CString::new` turns into when its argument holds a NUL byte. */
  datatype Error = OsError(code: int) | InvalidInput

  type IoResult<T> = Result<T, Error>

  /** Two's-complement negation of an `i32`, as a release build computes it. */
  function NegI32(x: int): (r: int)
    requires IsI32(x)
    ensures IsI32(r)
  {
    if x == I32_MIN then I32_MIN else -x
  }

  /** `ffi_result`: a negative status becomes `Err` carrying the negated status,
      any other status is passed through unchanged. */
  function FfiResult(ret: int): (r: IoResult<int>)
    requires IsI32(ret)
    ensures ret >= 0 <==> r.Ok?
    ensures r.Ok? ==> r.value == ret
    ensures r.Err? ==> r.error.OsError? && r.error.code == NegI32(ret)
    ensures r.Err? && ret != I32_MIN ==> r.error.code == -ret > 0
  {
    if ret < 0 then Err(OsError(NegI32(ret))) else Ok(ret)
  }

  /** A C errno status always yields a strictly positive error code. */
  lemma FfiErrnoPositive(ret: int)
    requires IsErrno(ret)
    ensures FfiResult(ret) == Err(OsError(-ret)) && -ret > 0
  {
  }

  /** Negating `i32::MIN` wraps around, so that one status yields a negative code. */
  lemma FfiMinWraps()
    ensures FfiResult(I32_MIN) == Err(OsError(I32_MIN))
  {
  }

  /** `sd_try!(e)`: continue with the non-negative status, or leave the
      enclosing function early with the mapped error. The continuation is
      what the enclosing function does with the status. */
  function SdTry<T>(ret: int, rest: int -> IoResult<T>): (r: IoResult<T>)
    requires IsI32(ret)
    ensures ret < 0 ==> r == Err(OsError(NegI32(ret)))
    ensures ret >= 0 ==> r == rest(ret)
  {
    var v :- FfiResult(ret);
    rest(v)
  }
}

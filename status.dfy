/** Decode_Status, the status word every decoder operation returns.
    The enumeration lives in libyami's public header VideoDecoderDefs.h; the values
    below are that header's, where failures are non-positive and DECODE_SUCCESS is 1,
    so that a `bool` converted to a status reads as SUCCESS or FAIL. */
module Status {

  type DecodeStatus = int

  const DECODE_MEMORY_FAIL: DecodeStatus := -1
  const DECODE_FAIL: DecodeStatus := 0
  const DECODE_SUCCESS: DecodeStatus := 1
  const DECODE_FORMAT_CHANGE: DecodeStatus := 2

  /** C++'s implicit conversion of a `bool` to the status enumeration (false is 0, true is 1),
      as `return fillSlice(...)` does in a function declared to return Decode_Status. */
  function StatusOfBool(b: bool): (st: DecodeStatus)
    ensures st == DECODE_SUCCESS <==> b
    ensures st == DECODE_FAIL <==> !b
  {
    if b then 1 else 0
  }
}

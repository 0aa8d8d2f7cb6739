/** The ESP-IDF vocabulary every component shares: `esp_err_t` result codes
    and a nullable value. */
module Esp {

  /** The `esp_err_t` codes the core returns or receives.  `ErrNvs` stands for
      any other failure code of the NVS engine, which is not part of this model. */
  datatype EspErr =
    | EspOk
    | EspFail
    | ErrNoMem
    | ErrInvalidState
    | ErrNotFound
    | ErrNvsNotFound
    | ErrNvsInvalidLength
    | ErrNvsNoFreePages
    | ErrNvsNewVersionFound
    | ErrNvs(code: int)

  /** A code that reports a failure. */
  type Failure = e: EspErr | e != EspOk witness EspFail

  /** A value that may be absent: a null pointer, or a key missing from a store. */
  datatype Option<T> = None | Some(value: T) {
    function GetOr(default: T): T {
      match this
      case Some(v) => v
      case None => default
    }
  }

  function Min(a: int, b: int): int {
    if a <= b then a else b
  }
}

// Optional values and fallible results, shared by every module.
module Results {
  datatype Option<+T> = None | Some(value: T)

  datatype Result<+R, +E> = Success(value: R) | Failure(error: E)

  // The present value of the newer field, else the older one (`new.or(old)`).
  function Or<T>(newer: Option<T>, older: Option<T>): Option<T> {
    if newer.Some? then newer else older
  }
}

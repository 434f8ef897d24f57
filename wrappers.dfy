/** Optional values (Kotlin's nullable `T?`) and results that carry either a
    value or a domain error (a thrown `ShopAppException`). */
module Wrappers {

  datatype Option<+T> = None | Some(value: T)

  datatype Result<+R, +E> = Success(value: R) | Failure(error: E)
}

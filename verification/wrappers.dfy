/** Optional and fallible values shared by every module of the model.
    `Option` stands for JavaScript's `undefined`/`null` where the source
    returns "nothing"; `Result` stands for a promise that resolves or
    rejects. */
module Wrappers {

  datatype Option<+T> = None | Some(value: T)

  datatype Result<+R, +E> = Success(value: R) | Failure(error: E)
}

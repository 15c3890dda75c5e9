/** Failure outcomes of the sorter. A Go `log.Fatal` or runtime panic ends the
    process; here it becomes a `Failure` value that the caller can inspect. */
module Errors {

  datatype Error =
    | ColumnMismatch    // a row's field count differs from the first row's (log.Fatal)
    | SliceOutOfRange   // `content[h:]` with h > len(content) (runtime panic)
    | NilDereference    // `rewriteTree` called on the nil root of an empty tree (runtime panic)

  datatype Result<+T> = Success(value: T) | Failure(error: Error)
}

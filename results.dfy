/** The exceptions the permutation search can raise, as values. */
module Results {

  datatype Failure =
    | MissingRow   // a row index below the row count is not a key: KeyError
    | NoEntries    // no non-zero entry to build the sparse matrix from: unpacking an empty zip fails
    | EmptyRow     // a row with no columns gives a subspace with no rows: min of an empty list
    | RaggedBlock  // a block of two or more indices reaches past the matrix's inferred width

  datatype Result<T> = Success(value: T) | Failure(error: Failure)
}

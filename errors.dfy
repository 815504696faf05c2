/** Outcomes of the auction operations: a value or the error the operation raises. */
module Errors {

  datatype Option<T> = None | Some(value: T)

  /** An `ApiError` carries the HTTP status and message the operation throws;
      `LedgerError` stands for an exception raised by the ledger client
      (a reverted `call` or a rejected submission), which is not an `ApiError`;
      `StoreError` stands for an exception raised by the database client. */
  datatype Failure = ApiError(status: nat, message: string) | LedgerError | StoreError

  datatype Result<T> = Ok(value: T) | Err(error: Failure)

  const ContractNotFound: Failure := ApiError(404, "Contract not found")
  const InvalidFormat: Failure := ApiError(400, "Invalid transaction format")
  const ValueTooLow: Failure := ApiError(422, "Value is less than highest bid")
  const BidNotFound: Failure := ApiError(404, "bid not found")
  const AlreadyWithdrawn: Failure := ApiError(409, "bid is already withdrawn")
  const NotBidOwner: Failure := ApiError(403, "bid is not for current user")
  const NotYetEndable: Failure := ApiError(422, "Auction cannot be ended yet")
  const AlreadyEnded: Failure := ApiError(422, "Auction has been ended before")
}

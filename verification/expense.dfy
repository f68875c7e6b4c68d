/** The single entity of the store: one row of the `expenses` table. */
module Expenses {
  import opened Results

  /** An expense record. `category` is nullable; `paid` is the integer flag
      the table stores (1 = paid, 0 = not paid); `createdAt` is in unix seconds.
      `amount` is only ever copied, so it is an exact real here. */
  datatype Expense = Expense(
    id: int,
    title: string,
    amount: real,
    category: Option<string>,
    paid: int,
    createdAt: int)

  /** The values the `paid` column is meant to hold. */
  predicate IsPaidFlag(p: int)
  {
    p == 0 || p == 1
  }
}

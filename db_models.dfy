/**
 * The two tables of the loan database, as row shapes. Every row carries
 * the integer primary key the storage engine assigned to it.
 */
module DbModels {

  /** A row of `admin_users`; `password` holds the hash, never the plain text. */
  datatype AdminUser = AdminUser(id: int, username: string, password: string)

  /** A row of `loan_requests`; `genre` holds the enumeration's string value. */
  datatype LoanRequest = LoanRequest(
    id: int,
    dni: int,
    fullName: string,
    genre: string,
    email: string,
    loanAmount: real,
    status: string)
}

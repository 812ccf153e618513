/** The ways one comparison run can stop before it produces a report. */
module Errors {

  datatype Error =
      /** `df.iloc[header_row]` on a sheet with only `rowCount` rows. */
    | HeaderRowOutOfRange(headerRow: nat, rowCount: nat)
      /** A configured key column is missing from the first or the second table. */
    | MissingKeyColumn(column: string)
      /** Substitution line `line` (0-based) holds two or more '=', so the two-name unpacking fails. */
    | TooManyValuesToUnpack(line: nat)
}

/**
 * The errors the sync tool can produce. The source threads a single dynamic
 * error type (`anyhow::Error`) through every operation; this datatype names
 * each way that error is built in the modelled code.
 */
module Errors {

  /** Why Rust's `str::parse::<i32>` rejected its input (`IntErrorKind`). */
  datatype IntErrorKind = Empty | InvalidDigit | PosOverflow | NegOverflow

  datatype Error =
    /** `missing {attribute} values for {dn}` */
    | MissingValues(attribute: string, dn: string)
    /** `missing attribute {attribute} for {dn}` (text-only reader) */
    | MissingAttribute(attribute: string, dn: string)
    /** the status text is not an `i32` */
    | ParseInt(kind: IntErrorKind)
    /** `failed to convert to i32 flag`: binary status not exactly four bytes */
    | StatusLength(length: nat)
    /** `String::from_utf8` rejected a removed entry's id */
    | InvalidUtf8
    /** `Not implemented!` */
    | NotImplemented
    /** an error reported by a collaborator outside the model (Zitadel, the poller, the file system) */
    | External(message: string)
}

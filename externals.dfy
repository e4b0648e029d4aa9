/** The libraries the core calls but does not implement. Each value type is abstract and
    each parser is an uninterpreted partial function, supplied by the caller. */
module Externals {
  import opened Wrappers

  /** `rust_decimal::Decimal` */
  type Decimal(==)
  /** `f64` */
  type F64(==)
  /** `chrono::NaiveDate` */
  type Date(==)
  /** `ean13::Ean13`, a checksummed 13-digit code */
  type Ean13(==)
  /** `csv::Error` */
  type CsvFailure

  datatype Parsers = Parsers(
    /** `str::parse::<Decimal>()` */
    parseDecimal: string -> Option<Decimal>,
    /** `str::parse::<f64>()` */
    parseF64: string -> Option<F64>,
    /** `NaiveDate::parse_from_str(s, "%Y-%m-%d").ok()` */
    parseYmdDate: string -> Option<Date>,
    /** `Ean13::from_str_nonstrict(s).ok()` */
    ean13NonStrict: string -> Option<Ean13>)
}

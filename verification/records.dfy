/** The website record: ten named fields, in the column order of the CSV file. */
module Records {
  import opened JsValue

  const FieldCount: nat := 10

  /** Column of `login_time`, the one field an update does not take from the user. */
  const LoginTimeColumn: nat := 6

  datatype Record = Record(
    websiteName: Value,
    category: Value,
    country: Value,
    launchYear: Value,
    monthlyVisitors: Value,
    userName: Value,
    loginTime: Value,
    comment: Value,
    feedback: Value,
    rating: Value)

  /** The fields of `r` in column order. */
  function Fields(r: Record): (fs: seq<Value>)
    ensures |fs| == FieldCount
    ensures fs[0] == r.websiteName && fs[LoginTimeColumn] == r.loginTime
  {
    [r.websiteName, r.category, r.country, r.launchYear, r.monthlyVisitors,
     r.userName, r.loginTime, r.comment, r.feedback, r.rating]
  }

  /** The record whose fields, in column order, are `fs`. */
  function FromFields(fs: seq<Value>): (r: Record)
    requires |fs| == FieldCount
    ensures Fields(r) == fs
  {
    Record(fs[0], fs[1], fs[2], fs[3], fs[4], fs[5], fs[6], fs[7], fs[8], fs[9])
  }

  /** A record is determined by its fields. */
  lemma FromFieldsOfFields(r: Record)
    ensures FromFields(Fields(r)) == r
  {
  }

  /** Every field holds a non-empty string. */
  predicate Complete(r: Record) {
    forall k :: 0 <= k < FieldCount ==> Truthy(Fields(r)[k])
  }
}

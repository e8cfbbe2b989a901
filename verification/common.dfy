/** Small value types shared by every module of the model. */
module Common {

  /** A value that may be missing: a SQL NULL, an undefined JSON property,
      or a string that JavaScript's number parsing turns into NaN. */
  datatype Option<+T> = None | Some(value: T) {
    function GetOr(default: T): T {
      match this
      case Some(v) => v
      case None => default
    }
  }

  /** One property of a JSON request body aimed at a table column: left
      out of the body, present as `null`, present with a value, or present
      with a value its reader cannot take as a `T` (text that is no number
      for a numeric column, anything but a `Date` for a timestamp column, a
      JSON value of the wrong type for a schema). */
  datatype Field<+T> = Absent | Null | Given(value: T) | Unreadable

  /** A property aimed at a text column: the driver sends any JSON value as
      its text, so none is unreadable. */
  type TextField = f: Field<string> | !f.Unreadable? witness Absent

  /** One day in milliseconds, the unit of every timestamp in the model. */
  const DayMillis: int := 24 * 60 * 60 * 1000
}

/** Small value types shared by every module of the model. */
module Common {

  /** A JavaScript value that may be `null`/`undefined` (`None`) or hold a value (`Some`). */
  datatype Option<+T> = None | Some(value: T) {

    /** The value, or `default` when there is none (JavaScript's `value ?? default`). */
    function GetOr(default: T): T {
      if Some? then value else default
    }
  }

  /**
   * A property of an object literal as seen by the spread operator: either the
   * property is not there at all (`Absent`), or it is there with some value
   * (`Present`) -- which may itself be `null`, e.g. `Present(None)`.
   * `{ ...a, ...b }` takes every property `b` has, whatever its value.
   */
  datatype Field<+T> = Absent | Present(value: T) {

    /** The spread result for one property: the patch's value if present, else `current`. */
    function Over(current: T): T {
      if Present? then value else current
    }
  }
}

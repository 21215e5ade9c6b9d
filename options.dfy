/** The optional value used across the model for JavaScript's `null` / `undefined`. */
module Options {

  datatype Option<+T> = None | Some(value: T) {

    /**
     * The value, or `default` when there is none. With `default == ""` this is
     * JavaScript's `x || ""` on a string or an absent value, since `""` is the
     * one falsy string and `"" || ""` is `""` too.
     */
    function GetOr(default: T): T {
      match this
      case Some(v) => v
      case None => default
    }
  }

  /** JavaScript truthiness of a value that is a string or absent: present and not empty. */
  predicate Truthy(s: Option<string>) {
    s.Some? && s.value != ""
  }
}

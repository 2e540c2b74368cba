/** The optional value used wherever the script may find nothing: a missing
    element (`document.querySelector` returning null), a topic that is not in
    the table, a hero icon that is left as it is. */
module Options {

  datatype Option<+T> = None | Some(value: T) {

    /** The value when there is one, `default` otherwise (JavaScript's `x || d`
        on an object-or-null). */
    function GetOr(default: T): (r: T)
      ensures Some? ==> r == value
      ensures None? ==> r == default
    {
      match this
      case Some(v) => v
      case None => default
    }
  }
}

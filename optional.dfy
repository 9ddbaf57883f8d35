/** A value that may be absent: JavaScript's `null`/`undefined` on the scraper's side. */
module Optional {

  datatype Option<+T> = None | Some(value: T) {

    /** `a ?? b`: keeps this value unless it is absent, otherwise takes `other`. */
    function OrElse(other: Option<T>): (r: Option<T>)
      ensures Some? ==> r == this
      ensures None? ==> r == other
    {
      if Some? then this else other
    }
  }
}

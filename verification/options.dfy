/** An optional value, used for "no previous update" and for a publish
    that was skipped. */
module Options {

  datatype Option<+T> = None | Some(value: T) {

    /** The value as a sequence of at most one element. */
    function ToSeq(): (r: seq<T>)
      ensures |r| <= 1
      ensures |r| == 1 <==> Some?
      ensures Some? ==> r[0] == value
    {
      match this
      case None => []
      case Some(v) => [v]
    }
  }
}

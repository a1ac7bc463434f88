/** Option, the stand-in for the NULL results of the C code. */
module Wrappers {

  datatype Option<+T> = None | Some(value: T) {

    /** The value as a sequence of length at most one. */
    function ToSeq(): (s: seq<T>)
      ensures |s| <= 1
      ensures Some? <==> |s| == 1
      ensures Some? ==> s[0] == value
    {
      match this
      case None => []
      case Some(v) => [v]
    }
  }
}

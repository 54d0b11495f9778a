/** Optional values, for results that may be absent (no match, no sample). */
module Wrappers {

  datatype Option<+T> = None | Some(value: T) {

    /** The value, if any, as a sequence of length zero or one. */
    function ToSeq(): (r: seq<T>)
      ensures |r| <= 1
      ensures Some? ==> r == [value]
      ensures None? ==> r == []
    {
      if Some? then [value] else []
    }
  }
}

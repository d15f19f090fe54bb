/** Optional values, used for "no frame emitted", "no log written" and
    "json.loads raised". */
module Wrappers {

  datatype Option<+T> = None | Some(value: T) {

    /** The value, or `default` when there is none. */
    function GetOr(default: T): T {
      match this
      case Some(v) => v
      case None => default
    }

    /** The empty sequence for None, a one-element sequence for Some. */
    function ToSeq(): (r: seq<T>)
      ensures |r| == if Some? then 1 else 0
      ensures Some? ==> r[0] == value
    {
      match this
      case Some(v) => [v]
      case None => []
    }
  }
}

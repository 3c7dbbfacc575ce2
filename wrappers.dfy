/** Optional values: the model's rendering of a JavaScript field that may be
    `null` or `undefined`, and of a step that may throw. */
module Wrappers {

  datatype Option<+T> = None | Some(value: T)

  /** All the values of `s`, or `None` as soon as one of its steps failed. */
  function AllSome<T>(s: seq<Option<T>>): (res: Option<seq<T>>)
    ensures res.None? <==> exists i :: 0 <= i < |s| && s[i].None?
    ensures res.Some? ==> |res.value| == |s| && forall i :: 0 <= i < |s| ==> s[i] == Some(res.value[i])
  {
    if s == [] then Some([])
    else
      match AllSome(s[..|s| - 1])
      case None => None
      case Some(done) =>
        match s[|s| - 1]
        case None => None
        case Some(x) => Some(done + [x])
  }
}

/** The optional value used wherever the Java code returns `null` for "none". */
module Options {

  datatype Option<+T> = None | Some(value: T)

  /** The elements an optional value contributes when appended to a list. */
  function ToSeq<T>(o: Option<T>): (s: seq<T>)
    ensures |s| <= 1
    ensures o.None? <==> |s| == 0
    ensures o.Some? ==> s == [o.value]
  {
    match o
    case None => []
    case Some(v) => [v]
  }
}

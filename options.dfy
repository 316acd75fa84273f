/** The optional value used for JavaScript's NaN, `null` and "no match" results. */
module Options {

  datatype Option<+T> = None | Some(value: T)

  /** The zero- or one-element sequence of an option, as a `push` that may not happen. */
  function AsSeq<T>(o: Option<T>): (r: seq<T>)
    ensures |r| <= 1
    ensures o.Some? <==> |r| == 1
    ensures o.Some? ==> r[0] == o.value
  {
    match o
    case None => []
    case Some(v) => [v]
  }
}

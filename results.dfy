/** Optional values, the scraper's errors, and the `Result` type that the
    extraction rules return, with Rust's `collect::<Result<Vec<_>, _>>()`
    modelled as `Collect`. */
module Results {

  datatype Option<+T> = None | Some(value: T)

  /** The three ways extraction of a category can fail, one per
      `format_err!` call in src/main.rs. */
  datatype Error = MissingTitle | MissingLink | MissingHref

  /** The message each error carries; each message belongs to exactly one
      kind, so the message identifies the failure. */
  function Message(e: Error): (m: string)
    ensures m == "cannot find title element in category" <==> e == MissingTitle
    ensures m == "no `a` element in an api element" <==> e == MissingLink
    ensures m == "no `href` on api element title `a`" <==> e == MissingHref
  {
    match e
    case MissingTitle => "cannot find title element in category"
    case MissingLink => "no `a` element in an api element"
    case MissingHref => "no `href` on api element title `a`"
  }

  /** Rust's `Result<T, anyhow::Error>`; usable with `:-` the way the
      source uses `?`. */
  datatype Result<+T> = Ok(value: T) | Err(error: Error) {
    predicate IsFailure() { Err? }

    function PropagateFailure<U>(): Result<U>
      requires Err?
    {
      Err(error)
    }

    function Extract(): T
      requires Ok?
    {
      value
    }
  }

  /** Index of the first failure in `rs`, or `|rs|` when every entry succeeded. */
  function FirstFailure<T>(rs: seq<Result<T>>): (i: nat)
    ensures i <= |rs|
    ensures forall j | 0 <= j < i :: rs[j].Ok?
    ensures i < |rs| ==> rs[i].Err?
  {
    if |rs| == 0 || rs[0].Err? then 0 else 1 + FirstFailure(rs[1..])
  }

  /** Collecting an iterator of results into a result of a vector: the first
      failure in order aborts, otherwise every value is kept in order. */
  function Collect<T>(rs: seq<Result<T>>): (r: Result<seq<T>>)
    ensures r.Ok? <==> forall i | 0 <= i < |rs| :: rs[i].Ok?
    ensures r.Ok? ==> |r.value| == |rs| && forall i | 0 <= i < |rs| :: r.value[i] == rs[i].value
    ensures r.Err? ==> FirstFailure(rs) < |rs| && r.error == rs[FirstFailure(rs)].error
  {
    if |rs| == 0 then Ok([])
    else
      match rs[0]
      case Err(e) => Err(e)
      case Ok(x) =>
        match Collect(rs[1..])
        case Err(e) => Err(e)
        case Ok(xs) => Ok([x] + xs)
  }
}

/** Option and Result: the shapes of Rust's `Option<T>` and `anyhow::Result<T>`. */
module Wrappers {

  datatype Option<+T> = None | Some(value: T)

  datatype Result<+T, +E> = Success(value: T) | Failure(error: E)
}

/** `std::cmp::Ordering` and the comparison of integers. */
module Ordering {

  datatype Ordering = Less | Equal | Greater

  function Compare(x: int, y: int): (o: Ordering)
    ensures o == Less <==> x < y
    ensures o == Equal <==> x == y
    ensures o == Greater <==> x > y
  {
    if x < y then Less else if x == y then Equal else Greater
  }

  function Reverse(o: Ordering): (r: Ordering)
    ensures r == Less <==> o == Greater
    ensures r == Equal <==> o == Equal
    ensures r == Greater <==> o == Less
  {
    match o
    case Less => Greater
    case Equal => Equal
    case Greater => Less
  }
}

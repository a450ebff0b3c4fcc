/** Option and Result values, the Dafny counterparts of Rust's `Option` and `Result`. */
module Wrappers {

  datatype Option<+T> = None | Some(value: T)

  datatype Result<+T, +E> = Ok(value: T) | Err(error: E) {

    /** Rust's `Result::ok`: keeps the success value and forgets the error. */
    function ToOption(): (o: Option<T>)
      ensures o.Some? <==> Ok?
      ensures o.Some? ==> o.value == value
    {
      match this
      case Ok(v) => Some(v)
      case Err(_) => None
    }
  }
}

/** Octets, as the Rust code's `u8`. */
module Bytes {

  type byte = x: int | 0 <= x < 256
}

/** Error and result types of the library (src/errors.rs).
    The `error_chain` machinery (descriptions, chained causes, `Debug` and
    `Display` formatting) is reduced to the error kinds themselves. */
module Errors {

  /** `std::option::Option`. */
  datatype Option<+T> = None | Some(value: T)

  /** `std::result::Result`; `Result<T>` of the library is `Result<T, ErrorKind>`. */
  datatype Result<+T, +E> = Ok(value: T) | Err(error: E)

  /** The kinds of the library's `Error`. `Msg` is the kind `error_chain`
      adds for errors raised with a plain message (`bail!("...")`). */
  datatype ErrorKind =
    | Serialize        // a value could not be converted to bytes
    | AlreadyInserted  // a duplicate commit or secret was added
    | NotPresent       // a secret was added where no matching commit exists
    | Empty            // no commits were added to the exchange
    | Msg(message: string)

  /** What a particular participant did wrong when revealing. */
  datatype RevealErrorKind = MissingSecret | ValidationFailed

  /** `RevealError<I>`: the participants that made the reveal fail, each with
      what it did wrong. */
  type RevealError<Id> = seq<(RevealErrorKind, Id)>

  /** `Option` view of a map lookup (`HashMap::get`/`remove`). */
  function Lookup<K, V>(m: map<K, V>, k: K): (r: Option<V>)
    ensures r.Some? <==> k in m
    ensures r.Some? ==> r.value == m[k]
  {
    if k in m then Some(m[k]) else None
  }
}

/** Option and Result, used wherever the Rust source returns `Option` or `Result`. */
module Wrappers {

  datatype Option<+T> = None | Some(value: T)

  datatype Result<+T, +E> = Ok(value: T) | Err(error: E)
}

module Sequences {

  /** The sequence without its k-th element. */
  function Delete<X>(s: seq<X>, k: nat): (r: seq<X>)
    requires k < |s|
    ensures |r| == |s| - 1
  {
    s[..k] + s[k + 1..]
  }

  lemma DeletedAt<X>(s: seq<X>, k: nat, i: nat)
    requires k < |s| && i < |s| - 1
    ensures Delete(s, k)[i] == s[if i < k then i else i + 1]
  {
  }
}

/** What several of the models use. */
module Seqs {
  /** A sequence without the element at one place. */
  function Without<T>(s: seq<T>, i: nat): seq<T>
    requires i < |s|
  {
    s[..i] + s[i + 1..]
  }
}

module OspfTypes {
  datatype Option<T> = None | Some(value: T)

  /** What external routes an area takes. */
  datatype External = Default | Stub | Nssa
}

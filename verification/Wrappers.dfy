/** The optional value shared by all the models of this project. */
module Wrappers {

  datatype Option<+T> = None | Some(value: T)
}

/** What the models say of sequences in general. */
module Sequences {

  ghost predicate NoRepeats<T(!new)>(s: seq<T>) {
    forall i, j :: 0 <= i < j < |s| ==> s[i] != s[j]
  }

  lemma Associate<T>(a: seq<T>, b: seq<T>, c: seq<T>)
    ensures a + (b + c) == a + b + c
  {
  }
}

/** Octets and strings of them. */
module Octets {

  type Byte = x: int | 0 <= x < 256

  type Bytes = seq<Byte>
}

/** What several of the models share. */
module Basics {

  datatype Option<+T> = None | Some(value: T)

  /** The values of a 32-bit unsigned counter or length. */
  const UINT32 := 0x1_0000_0000

  ghost predicate Distinct<T>(s: seq<T>) {
    forall i, j :: 0 <= i < j < |s| ==> s[i] != s[j]
  }
}

/** Concepts shared by the other modules. */
module Common {

  datatype Option<T> = None | Some(value: T)

  ghost predicate Increasing(s: seq<nat>)
  {
    forall i, j :: 0 <= i < j < |s| ==> s[i] < s[j]
  }

  /** The daemon's table storage. */
  const STORAGE_SIZE := 0x1_0000
}

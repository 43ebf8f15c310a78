/** What several parts of the model share. */
module Common {
  datatype Option<T> = None | Some(value: T)

  // one more than the largest 16-bit number
  const UINT16: nat := 0x1_0000

  ghost predicate Distinct<T>(s: seq<T>) {
    forall i, j | 0 <= i < j < |s| :: s[i] != s[j]
  }
}

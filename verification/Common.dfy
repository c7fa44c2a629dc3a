/** Small definitions that several models share. */
module Common {

  datatype Option<T> = None | Some(value: T)

  ghost predicate Distinct(s: seq<nat>) {
    forall i, j | 0 <= i < j < |s| :: s[i] != s[j]
  }

  function Abs(x: int): nat { if x < 0 then -x else x }
}

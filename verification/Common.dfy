/** Small shared vocabulary. */
module Common {
  datatype Option<+T> = None | Some(value: T)

  /** No value occurs twice. */
  ghost predicate Distinct(s: seq<int>) {
    forall i, j :: 0 <= i < j < |s| ==> s[i] != s[j]
  }

  ghost function Elems<T>(s: seq<T>): set<T> {
    set x | x in s
  }
}

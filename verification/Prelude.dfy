/** Small datatypes shared by every model in this project. */
module Prelude {

  /** A value that may be missing: JavaScript's `null` and `undefined`. */
  datatype Option<+T> = None | Some(value: T) {

    function GetOr(default: T): T {
      match this
      case Some(v) => v
      case None => default
    }
  }

  lemma {:induction false} SubsetSize<T>(x: set<T>, all: set<T>)
    requires x <= all
    ensures |x| <= |all|
  {
    if x != {} {
      var e :| e in x;
      SubsetSize(x - {e}, all - {e});
    }
  }

  lemma Associative<T>(a: seq<T>, b: seq<T>, c: seq<T>)
    ensures a + b + c == a + (b + c)
  {
  }

  function Reversed<T>(s: seq<T>): (r: seq<T>)
    ensures |r| == |s| && forall i :: 0 <= i < |s| ==> r[i] == s[|s| - 1 - i]
  {
    seq(|s|, i requires 0 <= i < |s| => s[|s| - 1 - i])
  }
}

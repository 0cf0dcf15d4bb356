/** Small wrappers shared by every module: JavaScript's "maybe absent"
    values, error returns, and `Array.prototype.indexOf`. */
module Basics {

  /** A property that may be absent (`undefined`) on a JavaScript object. */
  datatype Option<T> = None | Some(value: T) {
    /** The nullish-coalescing operator `v ?? d`. */
    function GetOr(d: T): T {
      if Some? then value else d
    }
  }

  /** An operation that either yields a value or throws. */
  datatype Result<T, E> = Ok(value: T) | Err(error: E)

  /** `s.indexOf(x)`: the first index holding `x`, or -1. */
  function IndexOf<T(==)>(s: seq<T>, x: T): (i: int)
    ensures -1 <= i < |s|
    ensures i == -1 <==> x !in s
    ensures 0 <= i ==> s[i] == x && x !in s[..i]
  {
    if |s| == 0 then -1
    else if s[0] == x then 0
    else
      var j := IndexOf(s[1..], x);
      assert j >= 0 ==> s[1..][..j] == s[1..j + 1];
      if j == -1 then -1 else j + 1
  }

  /** A non-empty sequence is its prefix followed by its last element. */
  lemma PrefixLast<T>(s: seq<T>)
    requires |s| > 0
    ensures s == s[..|s| - 1] + [s[|s| - 1]]
  {
  }

  /** An element of a sequence is in every sequence extending it on either side. */
  lemma InConcat<T>(a: seq<T>, b: seq<T>, x: T)
    ensures x in a ==> x in a + b
    ensures x in b ==> x in a + b
  {
    if x in b {
      var i :| 0 <= i < |b| && b[i] == x;
      assert (a + b)[|a| + i] == x;
    }
  }
}

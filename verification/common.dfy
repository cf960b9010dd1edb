/**
  Small sequence vocabulary shared by the rest of the model: an optional
  value, flattening a sequence of strings, and "is an order-preserving
  sub-sequence of".
 */
module Common {

  /** A value that may be absent (a JavaScript `null`/`undefined` lookup). */
  datatype Option<+T> = None | Some(value: T)

  /** Joins a sequence of sequences with no separator, like `Array.join("")`. */
  function Concat<T>(parts: seq<seq<T>>): (r: seq<T>)
    ensures parts == [] ==> r == []
  {
    if parts == [] then [] else parts[0] + Concat(parts[1..])
  }

  /** `t` is obtained from `s` by deleting elements, keeping the order of the rest. */
  predicate IsSubsequence<T(==)>(t: seq<T>, s: seq<T>)
    decreases |s|
  {
    if t == [] then true
    else if s == [] then false
    else if t[0] == s[0] then IsSubsequence(t[1..], s[1..])
    else IsSubsequence(t, s[1..])
  }

  /** A sub-sequence only holds elements of the original. */
  lemma {:induction false} SubsequenceElements<T>(t: seq<T>, s: seq<T>)
    requires IsSubsequence(t, s)
    ensures forall x :: x in t ==> x in s
    ensures |t| <= |s|
    decreases |s|
  {
    if t != [] {
      if t[0] == s[0] {
        SubsequenceElements(t[1..], s[1..]);
        assert t == [t[0]] + t[1..];
        assert s == [s[0]] + s[1..];
      } else {
        SubsequenceElements(t, s[1..]);
      }
    }
  }
}

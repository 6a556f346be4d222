/** Small sequence helpers shared by the backend and frontend models. */
module Util {

  /** A value that may be missing (Python None, JavaScript null/undefined). */
  datatype Option<T> = None | Some(value: T)

  /** No element occurs twice. */
  predicate NoDuplicates<T(==)>(s: seq<T>)
  {
    forall i, j :: 0 <= i < j < |s| ==> s[i] != s[j]
  }

  /** Position of the first occurrence of `x` in `s`
      (JavaScript `indexOf` / `findIndex` with `===`, Python `in` on the keys of a dict). */
  function IndexOf<T(==)>(s: seq<T>, x: T): (r: Option<nat>)
    ensures r.Some? ==> r.value < |s| && s[r.value] == x && x !in s[..r.value]
    ensures r.None? <==> x !in s
    decreases |s|
  {
    if |s| == 0 then None
    else
      var front := s[..|s| - 1];
      assert s == front + [s[|s| - 1]];
      match IndexOf(front, x)
      case Some(i) => assert front[..i] == s[..i]; Some(i)
      case None => if s[|s| - 1] == x then Some(|s| - 1) else None
  }

  /** In a sequence without duplicates, the position of element `i` is `i`. */
  lemma {:induction false} IndexOfDistinct<T>(s: seq<T>, i: nat)
    requires NoDuplicates(s) && i < |s|
    ensures IndexOf(s, s[i]) == Some(i)
  {
    assert s[i] in s;
    var k := IndexOf(s, s[i]).value;
    assert s[k] == s[i];
  }

  /** Appending an element does not move earlier first occurrences. */
  lemma IndexOfAppend<T>(s: seq<T>, y: T, x: T)
    ensures IndexOf(s + [y], x) == if x in s then IndexOf(s, x) else if x == y then Some(|s|) else None
  {
    assert (s + [y])[..|s|] == s;
  }
}

/** Python runtime behaviour that the simulation relies on: optional values
    and the rules of list indexing (negative indices count from the end,
    anything else raises IndexError). */
module Py {

  datatype Option<T> = None | Some(value: T)

  /** The position that Python's `lst[i]` reaches in a list of length `n`,
      or None when the access raises IndexError. */
  function Index(i: int, n: nat): (r: Option<nat>)
    ensures r.Some? <==> 0 <= i + n && i < n
    ensures r.Some? ==> r.value < n && (r.value - i) % n == 0
    ensures 0 <= i < n ==> r == Some(i)
  {
    if 0 <= i < n then Some(i) else if 0 <= i + n && i < 0 then Some(i + n) else None
  }

  /** `del lst[j]`: the element at j is removed and the list gets shorter. */
  function Delete<T>(s: seq<T>, j: nat): (r: seq<T>)
    requires j < |s|
    ensures |r| == |s| - 1
    ensures forall k :: 0 <= k < j ==> r[k] == s[k]
    ensures forall k :: j <= k < |r| ==> r[k] == s[k + 1]
  {
    s[..j] + s[j + 1..]
  }

  /** The slot that Python's `g[x][y]` reaches in a list of lists, or None
      when either subscript raises IndexError. */
  function Index2<T>(g: seq<seq<T>>, x: int, y: int): (r: Option<(nat, nat)>)
    ensures r.Some? ==> r.value.0 < |g| && r.value.1 < |g[r.value.0]|
    ensures r.Some? <==> Index(x, |g|).Some? && Index(y, |g[Index(x, |g|).value]|).Some?
    ensures 0 <= x < |g| && 0 <= y < |g[x]| ==> r == Some((x, y))
  {
    match Index(x, |g|)
    case None => None
    case Some(i) =>
      match Index(y, |g[i]|)
      case None => None
      case Some(j) => Some((i, j))
  }

  /** `g[i][j] = v` on a list of lists. */
  function Set2<T>(g: seq<seq<T>>, i: nat, j: nat, v: T): (r: seq<seq<T>>)
    requires i < |g| && j < |g[i]|
    ensures |r| == |g| && r[i] == g[i][j := v]
  {
    g[i := g[i][j := v]]
  }
}

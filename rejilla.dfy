/** The per-colony grids of agent slots: counting the occupied slots, and
    what `del row[y]` followed by `row[y] = None` does to a row. */
module Rejilla {
  import opened Py

  function Occ<T>(s: Option<T>): nat
  {
    if s.Some? then 1 else 0
  }

  /** Occupied slots of a row. */
  function CountRow<T>(row: seq<Option<T>>): nat
  {
    if |row| == 0 then 0 else CountRow(row[..|row| - 1]) + Occ(row[|row| - 1])
  }

  /** Occupied slots of a grid. */
  function Count<T>(g: seq<seq<Option<T>>>): nat
  {
    if |g| == 0 then 0 else Count(g[..|g| - 1]) + CountRow(g[|g| - 1])
  }

  /** A grid of w rows of h empty slots. */
  function Empty<T>(w: nat, h: nat): (g: seq<seq<Option<T>>>)
    ensures |g| == w && forall i :: 0 <= i < w ==> |g[i]| == h
    ensures forall i, j :: 0 <= i < w && 0 <= j < h ==> g[i][j].None?
  {
    seq(w, _ => seq(h, _ => None))
  }

  /** Writing one slot changes the row's count by what was there and what
      comes in. */
  lemma {:induction false} CountRowUpdate<T>(row: seq<Option<T>>, j: nat, v: Option<T>)
    requires j < |row|
    ensures CountRow(row[j := v]) == CountRow(row) - Occ(row[j]) + Occ(v)
  {
    var n := |row|;
    if j == n - 1 {
      assert row[j := v][..n - 1] == row[..n - 1];
    } else {
      assert row[j := v][..n - 1] == row[..n - 1][j := v];
      CountRowUpdate(row[..n - 1], j, v);
    }
  }

  /** Writing one slot changes the grid's count by what was there and what
      comes in. */
  lemma {:induction false} CountUpdate<T>(g: seq<seq<Option<T>>>, i: nat, j: nat, v: Option<T>)
    requires i < |g| && j < |g[i]|
    ensures Count(Set2(g, i, j, v)) == Count(g) - Occ(g[i][j]) + Occ(v)
  {
    var n := |g|;
    CountRowUpdate(g[i], j, v);
    if i == n - 1 {
      assert Set2(g, i, j, v)[..n - 1] == g[..n - 1];
    } else {
      assert Set2(g, i, j, v)[..n - 1] == Set2(g[..n - 1], i, j, v);
      CountUpdate(g[..n - 1], i, j, v);
    }
  }

  /** Moving an agent onto an empty slot keeps the count. */
  lemma CountMove<T>(g: seq<seq<Option<T>>>, i: nat, j: nat, k: nat, l: nat)
    requires i < |g| && j < |g[i]| && k < |g| && l < |g[k]|
    requires (i, j) != (k, l) && g[k][l].None?
    ensures Count(Set2(Set2(g, k, l, g[i][j]), i, j, None)) == Count(g)
  {
    CountUpdate(g, k, l, g[i][j]);
    CountUpdate(Set2(g, k, l, g[i][j]), i, j, None);
  }

  lemma {:induction false} CountRowEmpty<T>(row: seq<Option<T>>)
    requires forall j :: 0 <= j < |row| ==> row[j].None?
    ensures CountRow(row) == 0
  {
    if |row| > 0 {
      CountRowEmpty(row[..|row| - 1]);
    }
  }

  /** A grid without agents counts zero. */
  lemma {:induction false} CountEmpty<T>(g: seq<seq<Option<T>>>)
    requires forall i, j :: 0 <= i < |g| && 0 <= j < |g[i]| ==> g[i][j].None?
    ensures Count(g) == 0
  {
    if |g| > 0 {
      CountRowEmpty(g[|g| - 1]);
      CountEmpty(g[..|g| - 1]);
    }
  }

  /** Two rows with their occupied slots in the same places count the same. */
  lemma {:induction false} CountRowPattern<T, U>(a: seq<Option<T>>, b: seq<Option<U>>)
    requires |a| == |b| && forall j :: 0 <= j < |a| ==> (a[j].Some? <==> b[j].Some?)
    ensures CountRow(a) == CountRow(b)
  {
    if |a| > 0 {
      CountRowPattern(a[..|a| - 1], b[..|b| - 1]);
    }
  }

  /** Two grids with their occupied slots in the same places count the same. */
  lemma {:induction false} CountPattern<T, U>(a: seq<seq<Option<T>>>, b: seq<seq<Option<U>>>)
    requires |a| == |b| && forall i :: 0 <= i < |a| ==> |a[i]| == |b[i]|
    requires forall i, j :: 0 <= i < |a| && 0 <= j < |a[i]| ==> (a[i][j].Some? <==> b[i][j].Some?)
    ensures Count(a) == Count(b)
  {
    if |a| > 0 {
      CountRowPattern(a[|a| - 1], b[|b| - 1]);
      CountPattern(a[..|a| - 1], b[..|b| - 1]);
    }
  }

  /** `del row[y]; row[y] = None` as written: the slot y reaches is removed,
      then the slot that y reaches in the shorter row is cleared; the flag
      says whether that second subscript succeeded. */
  function DelThenClear<T>(row: seq<Option<T>>, y: int): (r: (seq<Option<T>>, bool))
    requires Index(y, |row|).Some?
    ensures |r.0| == |row| - 1
    ensures forall k :: 0 <= k < |r.0| ==> r.0[k].None? || r.0[k] in row
    ensures 0 <= y ==> (r.1 <==> y < |row| - 1)
    ensures 0 <= y && r.1 ==> r.0 == row[..y] + [None] + row[y + 2..]
    ensures 0 <= y && !r.1 ==> r.0 == row[..y]
  {
    var shorter := Delete(row, Index(y, |row|).value);
    match Index(y, |shorter|)
    case None => (shorter, false)
    case Some(j) => (shorter[j := None], true)
  }

  /** The as-written kill loses agents: killing the first of two agents
      leaves a row with no agent at all, while the counter drops by one
      only. */
  lemma DelThenClearLosesAgent<T>(a: T, b: T)
    ensures DelThenClear([Some(a), Some(b)], 0) == ([None], true)
    ensures CountRow([Some(a), Some(b)]) - 1 != CountRow(DelThenClear([Some(a), Some(b)], 0).0)
  {
    var row: seq<Option<T>> := [Some(a), Some(b)];
    assert row[..0] == [] && row[2..] == [];
    assert DelThenClear(row, 0).0 == row[..0] + [None] + row[2..] == [None];
    var cleared: seq<Option<T>> := [None];
    assert cleared[..0] == [];
    assert CountRow(cleared) == 0;
    assert row[..1] == [Some(a)] && row[..1][..0] == [];
    assert CountRow(row) == 2;
  }

  /** The as-written kill of the last slot shrinks the row, losing the agent,
      and the IndexError that follows stops the counter from dropping. */
  lemma DelThenClearLastSlot<T>(row: seq<Option<T>>)
    requires |row| > 0 && row[|row| - 1].Some?
    ensures DelThenClear(row, |row| - 1) == (row[..|row| - 1], false)
    ensures CountRow(row[..|row| - 1]) == CountRow(row) - 1
  {
  }
}

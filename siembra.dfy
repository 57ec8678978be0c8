/** The initial sowing of the dish and the census of a field: how many
    cells hold a given colony, and where the start-up placement puts each
    colony's first agents. */
module Siembra {
  import opened Py
  import opened Defs
  import opened Agar
  import opened Dish
  import opened Rejilla

  /** Writing one cell of a grid keeps its shape and changes that cell only. */
  lemma IsGridSet(g: seq<seq<Celda>>, w: nat, h: nat, i: nat, j: nat, v: Celda)
    requires IsGrid(g, w, h) && i < w && j < h
    ensures IsGrid(Set2(g, i, j, v), w, h)
    ensures forall a, b :: 0 <= a < w && 0 <= b < h ==>
              Set2(g, i, j, v)[a][b] == if (a, b) == (i, j) then v else g[a][b]
  {
  }

  /** The slots of g that hold colony id, marked. */
  function Marks(g: seq<seq<Celda>>, id: int): (m: seq<seq<Option<()>>>)
    ensures |m| == |g| && forall i :: 0 <= i < |g| ==> |m[i]| == |g[i]|
    ensures forall i, j :: 0 <= i < |g| && 0 <= j < |g[i]| ==> (m[i][j].Some? <==> g[i][j].idMo == id)
  {
    seq(|g|, i requires 0 <= i < |g| =>
      seq(|g[i]|, j requires 0 <= j < |g[i]| => if g[i][j].idMo == id then Some(()) else None))
  }

  /** Number of cells of g that hold colony id. */
  function IdCount(g: seq<seq<Celda>>, id: int): nat
  {
    Count(Marks(g, id))
  }

  function Holds(c: Celda, id: int): nat
  {
    if c.idMo == id then 1 else 0
  }

  /** Writing one cell changes the census of id by the cell that leaves and
      the cell that comes in. */
  lemma IdCountSet(g: seq<seq<Celda>>, i: nat, j: nat, v: Celda, id: int)
    requires i < |g| && j < |g[i]|
    ensures IdCount(Set2(g, i, j, v), id) == IdCount(g, id) - Holds(g[i][j], id) + Holds(v, id)
  {
    var m := Marks(g, id);
    var mark: Option<()> := if v.idMo == id then Some(()) else None;
    CountUpdate(m, i, j, mark);
    var s := Set2(m, i, j, mark);
    var f := Set2(g, i, j, v);
    assert forall a :: 0 <= a < |f| ==> |s[a]| == |f[a]| by {
      forall a | 0 <= a < |f|
        ensures |s[a]| == |f[a]|
      {
        if a == i {
          assert s[a] == m[i][j := mark] && f[a] == g[i][j := v];
        } else {
          assert s[a] == m[a] && f[a] == g[a];
        }
      }
    }
    forall a, b | 0 <= a < |f| && 0 <= b < |f[a]|
      ensures (s[a][b].Some? <==> Marks(f, id)[a][b].Some?)
    {
      if a == i {
        assert s[a] == m[i][j := mark] && f[a] == g[i][j := v];
      } else {
        assert s[a] == m[a] && f[a] == g[a];
      }
    }
    CountPattern(s, Marks(f, id));
  }

  /** Whether a draw p of the placement is taken: it lies inside the dish,
      hence on the field, and its cell is empty. */
  function Free(r: nat, g: seq<seq<Celda>>, p: Posicion): (b: bool)
    requires IsGrid(g, 2 * r, 2 * r)
    ensures b ==> 0 < p.x < 2 * r && 0 < p.y < 2 * r && g[p.x][p.y].idMo == Vacio
  {
    IsInDish(r, p) && (InDishInGrid(r, p); g[p.x][p.y].idMo == Vacio)
  }

  /** The start-up placement of colony `id` as `Petri.__init__` does it:
      while fewer than `left` agents remain to be placed, each draw puts an
      agent with E_INICIAL energy on its cell when the cell lies inside the
      dish and is empty, and is otherwise discarded. The result is the field,
      the number of draws consumed and the number of agents placed. */
  function Seeded(r: nat, g: seq<seq<Celda>>, draws: seq<Posicion>, id: int, left: nat): (res: (seq<seq<Celda>>, nat, nat))
    requires IsGrid(g, 2 * r, 2 * r)
    ensures IsGrid(res.0, 2 * r, 2 * r) && res.1 <= |draws| && res.2 <= left
    ensures res.2 < left ==> res.1 == |draws|
    decreases |draws|
  {
    if left == 0 || |draws| == 0 then (g, 0, 0)
    else
      var p := draws[0];
      var free := Free(r, g, p);
      var g' := if free then (IsGridSet(g, 2 * r, 2 * r, p.x, p.y, g[p.x][p.y].(idMo := id, energiaMo := EInicial));
                              Set2(g, p.x, p.y, g[p.x][p.y].(idMo := id, energiaMo := EInicial)))
                else g;
      var rest := Seeded(r, g', draws[1..], id, if free then left - 1 else left);
      (rest.0, rest.1 + 1, rest.2 + (if free then 1 else 0))
  }

  /** One step of the placement: the first draw is taken, and placed when
      free. */
  lemma SeededStep(r: nat, g: seq<seq<Celda>>, draws: seq<Posicion>, id: int, left: nat)
    requires IsGrid(g, 2 * r, 2 * r) && left > 0 && |draws| > 0
    ensures var p := draws[0];
      var free := Free(r, g, p);
      var g' := if free then Set2(g, p.x, p.y, g[p.x][p.y].(idMo := id, energiaMo := EInicial)) else g;
      IsGrid(g', 2 * r, 2 * r) &&
      var rest := Seeded(r, g', draws[1..], id, if free then left - 1 else left);
      Seeded(r, g, draws, id, left) == (rest.0, rest.1 + 1, rest.2 + (if free then 1 else 0))
  {
    var p := draws[0];
    if Free(r, g, p) {
      IsGridSet(g, 2 * r, 2 * r, p.x, p.y, g[p.x][p.y].(idMo := id, energiaMo := EInicial));
    }
  }

  /** The placement only fills empty cells inside the dish, with colony id
      and E_INICIAL energy; every other cell keeps what it held. */
  lemma {:induction false} SeededCells(r: nat, g: seq<seq<Celda>>, draws: seq<Posicion>, id: int, left: nat)
    requires IsGrid(g, 2 * r, 2 * r)
    ensures var res := Seeded(r, g, draws, id, left);
      forall i, j :: 0 <= i < 2 * r && 0 <= j < 2 * r ==>
        res.0[i][j] == g[i][j] ||
        (g[i][j].idMo == Vacio && IsInDish(r, Posicion(i, j)) &&
         res.0[i][j] == g[i][j].(idMo := id, energiaMo := EInicial))
    decreases |draws|
  {
    if left > 0 && |draws| > 0 {
      var p := draws[0];
      var free := Free(r, g, p);
      if free {
        var c := g[p.x][p.y].(idMo := id, energiaMo := EInicial);
        IsGridSet(g, 2 * r, 2 * r, p.x, p.y, c);
        SeededCells(r, Set2(g, p.x, p.y, c), draws[1..], id, left - 1);
      } else {
        SeededCells(r, g, draws[1..], id, left);
      }
    }
  }

  /** The placement adds exactly the agents it reports to the census of
      id and leaves the census of every other colony d alone. */
  lemma {:induction false} SeededCount(r: nat, g: seq<seq<Celda>>, draws: seq<Posicion>, id: int, left: nat, d: int)
    requires IsGrid(g, 2 * r, 2 * r) && id != Vacio && d != Vacio
    ensures var res := Seeded(r, g, draws, id, left);
      IdCount(res.0, d) == IdCount(g, d) + (if d == id then res.2 else 0)
    decreases |draws|
  {
    if left > 0 && |draws| > 0 {
      var p := draws[0];
      var free := Free(r, g, p);
      if free {
        var c := g[p.x][p.y].(idMo := id, energiaMo := EInicial);
        IsGridSet(g, 2 * r, 2 * r, p.x, p.y, c);
        SeededCount(r, Set2(g, p.x, p.y, c), draws[1..], id, left - 1, d);
        IdCountSet(g, p.x, p.y, c, d);
      } else {
        SeededCount(r, g, draws[1..], id, left, d);
      }
    }
  }

  /** The placement of colonies 1 to n in turn, each from the draws the
      previous ones left: the field and the number of draws consumed. */
  function SeedColonies(r: nat, g: seq<seq<Celda>>, draws: seq<Posicion>, n: nat): (res: (seq<seq<Celda>>, nat))
    requires IsGrid(g, 2 * r, 2 * r)
    ensures IsGrid(res.0, 2 * r, 2 * r) && res.1 <= |draws|
  {
    if n == 0 then (g, 0)
    else
      var before := SeedColonies(r, g, draws, n - 1);
      var s := Seeded(r, before.0, draws[before.1..], n, MosInicial);
      (s.0, before.1 + s.1)
  }

  /** The field of `Petri.__init__` before sowing: 2r by 2r empty cells. */
  function Blank(r: nat): (g: seq<seq<Celda>>)
    ensures IsGrid(g, 2 * r, 2 * r)
    ensures forall i, j :: 0 <= i < 2 * r && 0 <= j < 2 * r ==> g[i][j] == DefaultCelda
  {
    seq(2 * r, _ => seq(2 * r, _ => DefaultCelda))
  }

  /** An empty field counts no agent of any colony. */
  lemma BlankCount(r: nat, id: int)
    requires id != Vacio
    ensures IdCount(Blank(r), id) == 0
  {
    CountEmpty(Marks(Blank(r), id));
  }

  /** After sowing n colonies on an empty field, colony c (1 <= c <= n)
      holds between 0 and MOS_INICIAL cells, and exactly MOS_INICIAL unless
      the draws ran out; colonies above n hold none. */
  lemma {:induction false} SeedColoniesCount(r: nat, draws: seq<Posicion>, n: nat, c: int)
    requires c != Vacio
    ensures var res := SeedColonies(r, Blank(r), draws, n);
      (1 <= c <= n ==> IdCount(res.0, c) <= MosInicial && (res.1 < |draws| ==> IdCount(res.0, c) == MosInicial)) &&
      (c < 1 || c > n ==> IdCount(res.0, c) == 0)
  {
    if n == 0 {
      BlankCount(r, c);
    } else {
      var before := SeedColonies(r, Blank(r), draws, n - 1);
      SeedColoniesCount(r, draws, n - 1, c);
      SeededCount(r, before.0, draws[before.1..], n, MosInicial, c);
    }
  }
}

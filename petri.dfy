/** The Petri dish (lib/petri.py): the field, the two colonies bound to it,
    the clock and the drift of the nutrients, and one tick of the rules of
    life. Every random draw of the source is an argument. */
module Petri {
  import opened Py
  import opened Defs
  import opened Agar
  import opened Dish
  import opened Mos
  import opened Instancia
  import opened Rejilla
  import opened Siembra
  import Colonia
  import Microorg

  /** A cell a live agent may be in between two steps: an id of a colony or
      VACIO, positive energy exactly when occupied, no negative nutrients. */
  ghost predicate CellOk(c: Celda)
  {
    0 <= c.idMo <= NCol &&
    (c.idMo == Vacio ==> c.energiaMo == 0.0) &&
    (c.idMo != Vacio ==> c.energiaMo > 0.0) &&
    c.nutrientes >= 0.0
  }

  /** Every cell of the w by h grid is CellOk. */
  ghost predicate CellsOk(g: seq<seq<Celda>>, w: nat, h: nat)
  {
    IsGrid(g, w, h) && forall i, j :: 0 <= i < w && 0 <= j < h ==> CellOk(g[i][j])
  }

  /** The cells with id `id` are exactly the occupied slots of `mos`. */
  ghost predicate Mirrors(g: seq<seq<Celda>>, mos: seq<seq<Option<Mo>>>, id: int, w: nat, h: nat)
  {
    IsGrid(g, w, h) && |mos| == w && (forall i :: 0 <= i < w ==> |mos[i]| == h) &&
    forall i, j :: 0 <= i < w && 0 <= j < h ==> (g[i][j].idMo == id <==> mos[i][j].Some?)
  }

  /** Writing a cell and the matching slot keeps a colony mirrored. */
  lemma MirrorsSet(g: seq<seq<Celda>>, mos: seq<seq<Option<Mo>>>, id: int, w: nat, h: nat,
                   i: nat, j: nat, c: Celda, v: Option<Mo>)
    requires Mirrors(g, mos, id, w, h) && i < w && j < h
    requires c.idMo == id <==> v.Some?
    ensures Mirrors(Set2(g, i, j, c), Set2(mos, i, j, v), id, w, h)
  {
    IsGridSet(g, w, h, i, j, c);
  }

  /** Writing a cell without changing its id keeps every colony mirrored. */
  lemma MirrorsKeep(g: seq<seq<Celda>>, mos: seq<seq<Option<Mo>>>, id: int, w: nat, h: nat,
                    i: nat, j: nat, c: Celda)
    requires Mirrors(g, mos, id, w, h) && i < w && j < h
    requires c.idMo == g[i][j].idMo
    ensures Mirrors(Set2(g, i, j, c), mos, id, w, h)
  {
    IsGridSet(g, w, h, i, j, c);
  }

  lemma SetSame<T>(g: seq<seq<T>>, i: nat, j: nat)
    requires i < |g| && j < |g[i]|
    ensures Set2(g, i, j, g[i][j]) == g
  {
    assert g[i][j := g[i][j]] == g[i];
  }

  /** What is left of n nutrients once an agent has eaten 1% of them, never
      below 0. */
  function Eaten(n: real): (r: real)
    ensures n >= 0.0 ==> r == 0.99 * n
  {
    var m := n - 0.01 * n;
    if m < 0.0 then 0.0 else m
  }

  /** The field after `move_mo` from `from` to `to`. */
  function MovedCells(g: seq<seq<Celda>>, from: Posicion, to: Posicion): (r: seq<seq<Celda>>)
    requires 0 <= from.x < |g| && 0 <= from.y < |g[from.x]| && 0 <= to.x < |g| && 0 <= to.y < |g[to.x]|
  {
    var moved := Set2(g, to.x, to.y, g[to.x][to.y].(idMo := g[from.x][from.y].idMo,
                                                   energiaMo := g[from.x][from.y].energiaMo));
    Set2(moved, from.x, from.y, moved[from.x][from.y].(idMo := Vacio, energiaMo := 0.0))
  }

  /** The agent slots after the colony's `move` from `from` to `to`. */
  function MovedSlots(mos: seq<seq<Option<Mo>>>, from: Posicion, to: Posicion): seq<seq<Option<Mo>>>
    requires 0 <= from.x < |mos| && 0 <= from.y < |mos[from.x]| && 0 <= to.x < |mos| && 0 <= to.y < |mos[to.x]|
  {
    Set2(Set2(mos, to.x, to.y, mos[from.x][from.y]), from.x, from.y, None)
  }

  /** Moving onto an empty cell keeps every colony mirrored; a colony other
      than the mover's keeps its slots. */
  lemma MirrorsMove(g: seq<seq<Celda>>, mos: seq<seq<Option<Mo>>>, id: int, w: nat, h: nat,
                    from: Posicion, to: Posicion)
    requires Mirrors(g, mos, id, w, h) && id != Vacio
    requires 0 <= from.x < w && 0 <= from.y < h && 0 <= to.x < w && 0 <= to.y < h && from != to
    requires g[to.x][to.y].idMo == Vacio
    ensures Mirrors(MovedCells(g, from, to), MovedSlots(mos, from, to), id, w, h)
    ensures g[from.x][from.y].idMo != id ==> MovedSlots(mos, from, to) == mos
  {
    var g1 := Set2(g, to.x, to.y, g[to.x][to.y].(idMo := g[from.x][from.y].idMo,
                                                energiaMo := g[from.x][from.y].energiaMo));
    MirrorsSet(g, mos, id, w, h, to.x, to.y, g1[to.x][to.y], mos[from.x][from.y]);
    MirrorsSet(g1, Set2(mos, to.x, to.y, mos[from.x][from.y]), id, w, h, from.x, from.y,
               g1[from.x][from.y].(idMo := Vacio, energiaMo := 0.0), None);
    if g[from.x][from.y].idMo != id {
      SetSame(mos, to.x, to.y);
      SetSame(mos, from.x, from.y);
    }
  }

  lemma MovedSameNutrients(g: seq<seq<Celda>>, w: nat, h: nat, from: Posicion, to: Posicion)
    requires IsGrid(g, w, h) && 0 <= from.x < w && 0 <= from.y < h && 0 <= to.x < w && 0 <= to.y < h
    ensures SameNutrients(g, MovedCells(g, from, to), w, h)
  {
    var c := g[to.x][to.y].(idMo := g[from.x][from.y].idMo, energiaMo := g[from.x][from.y].energiaMo);
    IsGridSet(g, w, h, to.x, to.y, c);
    var m: seq<seq<Celda>> := Set2(g, to.x, to.y, c);
    IsGridSet(m, w, h, from.x, from.y, m[from.x][from.y].(idMo := Vacio, energiaMo := 0.0));
  }

  /** A move keeps every cell CellOk. */
  lemma MovedOk(g: seq<seq<Celda>>, w: nat, h: nat, from: Posicion, to: Posicion)
    requires CellsOk(g, w, h) && 0 <= from.x < w && 0 <= from.y < h && 0 <= to.x < w && 0 <= to.y < h
    ensures CellsOk(MovedCells(g, from, to), w, h)
  {
    var c := g[to.x][to.y].(idMo := g[from.x][from.y].idMo, energiaMo := g[from.x][from.y].energiaMo);
    CellsOkSet(g, w, h, to.x, to.y, c);
    var m: seq<seq<Celda>> := Set2(g, to.x, to.y, c);
    IsGridSet(g, w, h, to.x, to.y, c);
    CellsOkSet(m, w, h, from.x, from.y, m[from.x][from.y].(idMo := Vacio, energiaMo := 0.0));
  }

  /** The agent that loses the fight of `from` against `to`. */
  function Loser(g: seq<seq<Celda>>, from: Posicion, to: Posicion, up: bool): Posicion
    requires 0 <= from.x < |g| && 0 <= from.y < |g[from.x]| && 0 <= to.x < |g| && 0 <= to.y < |g[to.x]|
  {
    if Combat(g[from.x][from.y].energiaMo, g[to.x][to.y].energiaMo, up).0 then from else to
  }

  /** The field after the energies of a fight are settled, before the loser
      may be removed: the winner holds ew and the loser el of Combat. */
  function Fought(g: seq<seq<Celda>>, from: Posicion, to: Posicion, up: bool): seq<seq<Celda>>
    requires 0 <= from.x < |g| && 0 <= from.y < |g[from.x]| && 0 <= to.x < |g| && 0 <= to.y < |g[to.x]|
  {
    var (dw, ew, el) := Combat(g[from.x][from.y].energiaMo, g[to.x][to.y].energiaMo, up);
    var (win, los) := if dw then (to, from) else (from, to);
    Set2(Set2(g, win.x, win.y, g[win.x][win.y].(energiaMo := ew)), los.x, los.y, g[los.x][los.y].(energiaMo := el))
  }

  /** After a fight between two occupied cells in which the winner ends
      above zero, every cell but the loser's is CellOk, and the loser's is
      too when it ends above zero. */
  lemma FoughtOk(g: seq<seq<Celda>>, w: nat, h: nat, win: Posicion, los: Posicion, f: seq<seq<Celda>>)
    requires CellsOk(g, w, h) && 0 <= win.x < w && 0 <= win.y < h && 0 <= los.x < w && 0 <= los.y < h
    requires win != los
    requires IsGrid(f, w, h)
    requires forall i, j :: 0 <= i < w && 0 <= j < h && (i, j) != (win.x, win.y) && (i, j) != (los.x, los.y) ==> f[i][j] == g[i][j]
    requires f[win.x][win.y] == g[win.x][win.y].(energiaMo := f[win.x][win.y].energiaMo)
    requires f[los.x][los.y] == g[los.x][los.y].(energiaMo := f[los.x][los.y].energiaMo)
    requires g[win.x][win.y].idMo != Vacio && g[los.x][los.y].idMo != Vacio && f[win.x][win.y].energiaMo > 0.0
    ensures forall i, j :: 0 <= i < w && 0 <= j < h && (i, j) != (los.x, los.y) ==> CellOk(f[i][j])
    ensures f[los.x][los.y].energiaMo > 0.0 ==> CellsOk(f, w, h)
  {
  }

  /** Clearing a cell whose only fault was its energy restores CellsOk. */
  lemma KilledOk(f: seq<seq<Celda>>, w: nat, h: nat, los: Posicion)
    requires IsGrid(f, w, h) && 0 <= los.x < w && 0 <= los.y < h && f[los.x][los.y].nutrientes >= 0.0
    requires forall i, j :: 0 <= i < w && 0 <= j < h && (i, j) != (los.x, los.y) ==> CellOk(f[i][j])
    ensures CellsOk(Set2(f, los.x, los.y, f[los.x][los.y].(idMo := Vacio, energiaMo := 0.0)), w, h)
  {
    IsGridSet(f, w, h, los.x, los.y, f[los.x][los.y].(idMo := Vacio, energiaMo := 0.0));
  }

  /** The field after the agent at pos divides into the cell p. */
  function Divided(g: seq<seq<Celda>>, pos: Posicion, p: Posicion): seq<seq<Celda>>
    requires 0 <= pos.x < |g| && 0 <= pos.y < |g[pos.x]| && 0 <= p.x < |g| && 0 <= p.y < |g[p.x]|
  {
    var e := Half(g[pos.x][pos.y].energiaMo);
    Set2(Set2(g, pos.x, pos.y, g[pos.x][pos.y].(energiaMo := e)),
         p.x, p.y, g[p.x][p.y].(idMo := g[pos.x][pos.y].idMo, energiaMo := e))
  }

  /** A division from pos to the empty cell p with positive halves keeps
      every cell CellOk. */
  lemma DividedOk(g: seq<seq<Celda>>, w: nat, h: nat, pos: Posicion, p: Posicion, f: seq<seq<Celda>>)
    requires CellsOk(g, w, h) && 0 <= pos.x < w && 0 <= pos.y < h && 0 <= p.x < w && 0 <= p.y < h
    requires g[pos.x][pos.y].idMo != Vacio && g[p.x][p.y].idMo == Vacio
    requires Half(g[pos.x][pos.y].energiaMo) > 0.0
    requires f == Divided(g, pos, p)
    ensures CellsOk(f, w, h)
  {
    var e := Half(g[pos.x][pos.y].energiaMo);
    IsGridSet(g, w, h, pos.x, pos.y, g[pos.x][pos.y].(energiaMo := e));
    IsGridSet(Set2(g, pos.x, pos.y, g[pos.x][pos.y].(energiaMo := e)), w, h, p.x, p.y,
              g[p.x][p.y].(idMo := g[pos.x][pos.y].idMo, energiaMo := e));
  }

  /** A division changes ids and energies only. */
  lemma DividedSameNutrients(g: seq<seq<Celda>>, w: nat, h: nat, pos: Posicion, p: Posicion)
    requires IsGrid(g, w, h) && 0 <= pos.x < w && 0 <= pos.y < h && 0 <= p.x < w && 0 <= p.y < h
    ensures SameNutrients(g, Divided(g, pos, p), w, h)
    ensures Divided(g, pos, p)[pos.x][pos.y].idMo == g[pos.x][pos.y].idMo
  {
    var e := Half(g[pos.x][pos.y].energiaMo);
    IsGridSet(g, w, h, pos.x, pos.y, g[pos.x][pos.y].(energiaMo := e));
    IsGridSet(Set2(g, pos.x, pos.y, g[pos.x][pos.y].(energiaMo := e)), w, h, p.x, p.y,
              g[p.x][p.y].(idMo := g[pos.x][pos.y].idMo, energiaMo := e));
  }

  /** Changing energies and nutrients but no id keeps a colony mirrored. */
  lemma MirrorsIds(g: seq<seq<Celda>>, f: seq<seq<Celda>>, mos: seq<seq<Option<Mo>>>, id: int, w: nat, h: nat)
    requires Mirrors(g, mos, id, w, h) && IsGrid(f, w, h)
    requires forall i, j :: 0 <= i < w && 0 <= j < h ==> f[i][j].idMo == g[i][j].idMo
    ensures Mirrors(f, mos, id, w, h)
  {
  }

  /** A grid whose only doubtful cell (x, y) turns out occupied with
      positive energy is CellsOk. */
  lemma RestoredOk(f: seq<seq<Celda>>, w: nat, h: nat, x: nat, y: nat)
    requires IsGrid(f, w, h) && x < w && y < h && CellOk(f[x][y])
    requires forall i, j :: 0 <= i < w && 0 <= j < h && (i, j) != (x, y) ==> CellOk(f[i][j])
    ensures CellsOk(f, w, h)
  {
  }

  /** The field after the agent at (x, y) feeds from (xr, yr): it gains 1%
      of the nutrients there, which lose them (never going below 0), and it
      pays E_VIVIR. */
  function FedCells(g: seq<seq<Celda>>, w: nat, h: nat, x: nat, y: nat, xr: nat, yr: nat): (r: seq<seq<Celda>>)
    requires IsGrid(g, w, h) && x < w && y < h && xr < w && yr < h
    ensures IsGrid(r, w, h)
  {
    var n := 0.01 * g[xr][yr].nutrientes;
    var g1: seq<seq<Celda>> := Set2(g, x, y, g[x][y].(energiaMo := g[x][y].energiaMo + n));
    IsGridSet(g, w, h, x, y, g1[x][y]);
    var g2: seq<seq<Celda>> := Set2(g1, xr, yr, g1[xr][yr].(nutrientes := g1[xr][yr].nutrientes - n));
    IsGridSet(g1, w, h, xr, yr, g2[xr][yr]);
    var g3: seq<seq<Celda>> := if g2[xr][yr].nutrientes < 0.0 then Set2(g2, xr, yr, g2[xr][yr].(nutrientes := 0.0)) else g2;
    IsGridSet(g2, w, h, xr, yr, g2[xr][yr].(nutrientes := 0.0));
    IsGridSet(g3, w, h, x, y, g3[x][y].(energiaMo := g3[x][y].energiaMo - EVivir));
    Set2(g3, x, y, g3[x][y].(energiaMo := g3[x][y].energiaMo - EVivir))
  }

  /** Cell by cell: ids stay, only (x, y) changes its energy, by 1% of the
      nutrients at (xr, yr) less E_VIVIR, and only (xr, yr) loses nutrients,
      what Eaten leaves. */
  lemma FedCellsSpec(g: seq<seq<Celda>>, w: nat, h: nat, x: nat, y: nat, xr: nat, yr: nat)
    requires IsGrid(g, w, h) && x < w && y < h && xr < w && yr < h
    ensures var f := FedCells(g, w, h, x, y, xr, yr);
      forall i, j :: 0 <= i < w && 0 <= j < h ==>
        f[i][j].idMo == g[i][j].idMo &&
        f[i][j].energiaMo ==
          (if (i, j) == (x, y) then g[i][j].energiaMo + 0.01 * g[xr][yr].nutrientes - EVivir else g[i][j].energiaMo) &&
        f[i][j].nutrientes ==
          (if (i, j) == (xr, yr) then Eaten(g[i][j].nutrientes) else g[i][j].nutrientes)
  {
    var n := 0.01 * g[xr][yr].nutrientes;
    var g1: seq<seq<Celda>> := Set2(g, x, y, g[x][y].(energiaMo := g[x][y].energiaMo + n));
    IsGridSet(g, w, h, x, y, g1[x][y]);
    var g2: seq<seq<Celda>> := Set2(g1, xr, yr, g1[xr][yr].(nutrientes := g1[xr][yr].nutrientes - n));
    IsGridSet(g1, w, h, xr, yr, g2[xr][yr]);
    var g3: seq<seq<Celda>> := if g2[xr][yr].nutrientes < 0.0 then Set2(g2, xr, yr, g2[xr][yr].(nutrientes := 0.0)) else g2;
    IsGridSet(g2, w, h, xr, yr, g2[xr][yr].(nutrientes := 0.0));
    IsGridSet(g3, w, h, x, y, g3[x][y].(energiaMo := g3[x][y].energiaMo - EVivir));
  }

  /** Two w by h grids that agree on every cell are equal. */
  lemma GridExt(a: seq<seq<Celda>>, b: seq<seq<Celda>>, w: nat, h: nat)
    requires IsGrid(a, w, h) && IsGrid(b, w, h)
    requires forall i, j :: 0 <= i < w && 0 <= j < h ==> a[i][j] == b[i][j]
    ensures a == b
  {
    forall i | 0 <= i < w
      ensures a[i] == b[i]
    {
      assert forall j :: 0 <= j < h ==> a[i][j] == b[i][j];
    }
  }

  /** The field after the agent at (x, y) paid E_MOVERSE, when it moved. */
  function Paid(g: seq<seq<Celda>>, x: nat, y: nat, moved: bool): seq<seq<Celda>>
    requires x < |g| && y < |g[x]|
  {
    if moved then Set2(g, x, y, g[x][y].(energiaMo := g[x][y].energiaMo - EMoverse)) else g
  }

  /** The energy of the agent at (x, y) once it has fed from (xr, yr), paid
      E_VIVIR and, when it moved, E_MOVERSE. */
  function MetabolicEnergy(g: seq<seq<Celda>>, w: nat, h: nat, x: nat, y: nat, xr: nat, yr: nat, moved: bool): real
    requires IsGrid(g, w, h) && x < w && y < h && xr < w && yr < h
  {
    g[x][y].energiaMo + 0.01 * g[xr][yr].nutrientes - EVivir - (if moved then EMoverse else 0.0)
  }

  /** The field after one metabolic step of the agent at (x, y) feeding from
      (xr, yr): the nutrients there are Eaten, the agent keeps its
      MetabolicEnergy, and it is removed once that is no longer positive. */
  function Metabolised(g: seq<seq<Celda>>, w: nat, h: nat, x: nat, y: nat, xr: nat, yr: nat, moved: bool): (r: seq<seq<Celda>>)
    requires IsGrid(g, w, h) && x < w && y < h && xr < w && yr < h
    ensures IsGrid(r, w, h)
  {
    var e := MetabolicEnergy(g, w, h, x, y, xr, yr, moved);
    var fed: seq<seq<Celda>> := Set2(g, xr, yr, g[xr][yr].(nutrientes := Eaten(g[xr][yr].nutrientes)));
    IsGridSet(g, w, h, xr, yr, g[xr][yr].(nutrientes := Eaten(g[xr][yr].nutrientes)));
    var c := if e > 0.0 then fed[x][y].(energiaMo := e) else fed[x][y].(idMo := Vacio, energiaMo := 0.0);
    IsGridSet(fed, w, h, x, y, c);
    Set2(fed, x, y, c)
  }

  /** Cell by cell: only (xr, yr) loses nutrients, 1% of them; only (x, y)
      changes its agent, which keeps its id with its MetabolicEnergy when
      that is positive and is emptied otherwise; and a field of CellOk cells
      stays so. */
  lemma MetabolisedSpec(g: seq<seq<Celda>>, w: nat, h: nat, x: nat, y: nat, xr: nat, yr: nat, moved: bool)
    requires IsGrid(g, w, h) && x < w && y < h && xr < w && yr < h
    ensures var r := Metabolised(g, w, h, x, y, xr, yr, moved);
      var e := MetabolicEnergy(g, w, h, x, y, xr, yr, moved);
      (forall i, j :: 0 <= i < w && 0 <= j < h ==>
        r[i][j].nutrientes == if (i, j) == (xr, yr) then Eaten(g[i][j].nutrientes) else g[i][j].nutrientes) &&
      (forall i, j :: 0 <= i < w && 0 <= j < h && (i, j) != (x, y) ==>
        r[i][j].idMo == g[i][j].idMo && r[i][j].energiaMo == g[i][j].energiaMo) &&
      (e > 0.0 ==> r[x][y].idMo == g[x][y].idMo && r[x][y].energiaMo == e) &&
      (e <= 0.0 ==> r[x][y].idMo == Vacio && r[x][y].energiaMo == 0.0)
    ensures CellsOk(g, w, h) && g[x][y].idMo != Vacio ==> CellsOk(Metabolised(g, w, h, x, y, xr, yr, moved), w, h)
  {
    var fed: seq<seq<Celda>> := Set2(g, xr, yr, g[xr][yr].(nutrientes := Eaten(g[xr][yr].nutrientes)));
    IsGridSet(g, w, h, xr, yr, g[xr][yr].(nutrientes := Eaten(g[xr][yr].nutrientes)));
    var e := MetabolicEnergy(g, w, h, x, y, xr, yr, moved);
    var c := if e > 0.0 then fed[x][y].(energiaMo := e) else fed[x][y].(idMo := Vacio, energiaMo := 0.0);
    IsGridSet(fed, w, h, x, y, c);
  }

  /** Feeding (the field f), then paying E_MOVERSE when moved (the field p),
      then removing the agent when its energy is no longer positive, is
      Metabolised. */
  lemma MetabolisedSteps(g: seq<seq<Celda>>, f: seq<seq<Celda>>, p: seq<seq<Celda>>,
                         w: nat, h: nat, x: nat, y: nat, xr: nat, yr: nat, moved: bool)
    requires IsGrid(g, w, h) && x < w && y < h && xr < w && yr < h
    requires f == FedCells(g, w, h, x, y, xr, yr)
    requires p == Paid(f, x, y, moved)
    ensures IsGrid(p, w, h)
    ensures p[x][y].energiaMo == MetabolicEnergy(g, w, h, x, y, xr, yr, moved)
    ensures (if p[x][y].energiaMo <= 0.0 then Set2(p, x, y, p[x][y].(idMo := Vacio, energiaMo := 0.0)) else p)
            == Metabolised(g, w, h, x, y, xr, yr, moved)
  {
    FedCellsSpec(g, w, h, x, y, xr, yr);
    IsGridSet(f, w, h, x, y, f[x][y].(energiaMo := f[x][y].energiaMo - EMoverse));
    var q := if p[x][y].energiaMo <= 0.0 then Set2(p, x, y, p[x][y].(idMo := Vacio, energiaMo := 0.0)) else p;
    IsGridSet(p, w, h, x, y, p[x][y].(idMo := Vacio, energiaMo := 0.0));
    MetabolisedSpec(g, w, h, x, y, xr, yr, moved);
    var r := Metabolised(g, w, h, x, y, xr, yr, moved);
    forall i, j | 0 <= i < w && 0 <= j < h
      ensures q[i][j] == r[i][j]
    {
    }
    GridExt(q, r, w, h);
  }

  /** f differs from g at most in ids and energies. */
  ghost predicate SameNutrients(g: seq<seq<Celda>>, f: seq<seq<Celda>>, w: nat, h: nat)
  {
    IsGrid(g, w, h) && IsGrid(f, w, h) &&
    forall i, j :: 0 <= i < w && 0 <= j < h ==> f[i][j].nutrientes == g[i][j].nutrientes
  }

  /** Writing a cell that keeps its nutrients keeps every nutrient. */
  lemma SetSameNutrients(g: seq<seq<Celda>>, w: nat, h: nat, i: nat, j: nat, v: Celda)
    requires IsGrid(g, w, h) && i < w && j < h && v.nutrientes == g[i][j].nutrientes
    ensures SameNutrients(g, Set2(g, i, j, v), w, h)
  {
    IsGridSet(g, w, h, i, j, v);
  }

  /** Writing a CellOk cell keeps a grid CellsOk. */
  lemma CellsOkSet(g: seq<seq<Celda>>, w: nat, h: nat, i: nat, j: nat, v: Celda)
    requires CellsOk(g, w, h) && i < w && j < h && CellOk(v)
    ensures CellsOk(Set2(g, i, j, v), w, h)
  {
    IsGridSet(g, w, h, i, j, v);
  }

  /** The empty field is mirrored by the empty slots of every colony. */
  lemma BlankMirrors(r: nat, id: int)
    requires id != Vacio
    ensures Mirrors(Blank(r), Empty(2 * r, 2 * r), id, 2 * r, 2 * r)
  {
  }

  /** A colony that mirrors the field counts as many occupied slots as the
      field has cells with its id. */
  lemma MirrorsCount(g: seq<seq<Celda>>, mos: seq<seq<Option<Mo>>>, id: int, w: nat, h: nat)
    requires Mirrors(g, mos, id, w, h)
    ensures Count(mos) == IdCount(g, id)
  {
    CountPattern(mos, Marks(g, id));
  }

  /** Cell (i, j) of g once `__init__` has set its nutrients under
      distribution `dist`; `gauss` gives the two gaussians of distribution 5. */
  function Fertile(g: seq<seq<Celda>>, w: nat, h: nat, i: nat, j: nat, dist: int, gauss: (int, int) -> real): Celda
    requires IsGrid(g, w, h) && i < w && j < h && (dist == 4 ==> w >= 4)
  {
    g[i][j].(nutrientes := Nutrients(w, h, i, j, dist, gauss(i, j)).value)
  }

  /** The nutrients `__init__` puts on the first n cells of row x. */
  function RowTotal(w: nat, h: nat, x: nat, n: nat, dist: int, gauss: (int, int) -> real): real
    requires x < w && n <= h && (dist == 4 ==> w >= 4)
  {
    if n == 0 then 0.0
    else RowTotal(w, h, x, n - 1, dist, gauss) + Nutrients(w, h, x, n - 1, dist, gauss(x, n - 1)).value
  }

  /** `total_nutri`: the nutrients `__init__` puts on the first m rows. */
  function FieldTotal(w: nat, h: nat, m: nat, dist: int, gauss: (int, int) -> real): real
    requires m <= w && (dist == 4 ==> w >= 4)
  {
    if m == 0 then 0.0
    else FieldTotal(w, h, m - 1, dist, gauss) + RowTotal(w, h, m - 1, h, dist, gauss)
  }

  /** Under the famine distribution every cell of the square gets
      MAX_NUTRI / 11.062, so the total is the number of cells times that. */
  lemma {:induction false} FamineTotal(w: nat, h: nat, m: nat, gauss: (int, int) -> real)
    requires m <= w
    ensures FieldTotal(w, h, m, 6, gauss) == (m * h) as real * (MaxNutri / 11.062)
  {
    if m > 0 {
      FamineTotal(w, h, m - 1, gauss);
      FamineRow(w, h, m - 1, h, gauss);
      assert (m * h) as real == ((m - 1) * h) as real + h as real;
    }
  }

  lemma {:induction false} FamineRow(w: nat, h: nat, x: nat, n: nat, gauss: (int, int) -> real)
    requires x < w && n <= h
    ensures RowTotal(w, h, x, n, 6, gauss) == n as real * (MaxNutri / 11.062)
  {
    if n > 0 {
      FamineRow(w, h, x, n - 1, gauss);
      NutrientShapes(w, h, x, n - 1, gauss(x, n - 1));
    }
  }

  /** Setting the nutrients of a CellsOk field keeps it CellsOk when no
      value is negative, and keeps every colony mirrored. */
  lemma FertileOk(g: seq<seq<Celda>>, f: seq<seq<Celda>>, w: nat, h: nat, dist: int, gauss: (int, int) -> real)
    requires CellsOk(g, w, h) && IsGrid(f, w, h) && (dist == 4 ==> w >= 4)
    requires forall i, j :: 0 <= i < w && 0 <= j < h ==> gauss(i, j) >= 0.0
    requires forall i, j :: 0 <= i < w && 0 <= j < h ==> f[i][j] == Fertile(g, w, h, i, j, dist, gauss)
    ensures CellsOk(f, w, h)
    ensures forall i, j :: 0 <= i < w && 0 <= j < h ==> f[i][j].idMo == g[i][j].idMo
  {
    forall i, j | 0 <= i < w && 0 <= j < h
      ensures CellOk(f[i][j])
    {
      NutrientsBounds(w, h, i, j, dist, gauss(i, j));
    }
  }

  lemma SameNutrientsTrans(g: seq<seq<Celda>>, f: seq<seq<Celda>>, e: seq<seq<Celda>>, w: nat, h: nat)
    requires SameNutrients(g, f, w, h) && SameNutrients(f, e, w, h)
    ensures SameNutrients(g, e, w, h)
  {
  }

  /** The drift direction after tick t: redrawn on ticks with t % 10 < 5
      and t % 6 == 0, kept otherwise. */
  function DriftDirection(t: int, dir: (int, int), redraw: (int, int)): (int, int)
  {
    if t % 10 < 5 && t % 6 == 0 then redraw else dir
  }

  /** The nutrient read offset after tick t: moved by the direction on
      ticks with t % 10 < 5. */
  function DriftOffset(t: int, offset: (int, int), dir: (int, int)): (int, int)
  {
    if t % 10 < 5 then (offset.0 + dir.0, offset.1 + dir.1) else offset
  }

  /** The random draws of one tick of `move_colonies`: the shuffled order
      in which the snapshot is visited; for the agent visited m-th, the
      shuffled neighbour offsets its division tries and the coin
      (`random.random() > 0.5`) that breaks a tie of energies in its fight;
      and the drift direction, used when the schedule redraws it. */
  datatype TickDraws = TickDraws(shuffle: seq<int>, orders: seq<seq<Movimiento>>, ups: seq<bool>, drift: (int, int))

  /** Where `can_move` sends an agent at `from` asking for mov: one step
      along the sign of each component when the raw target is in the dish,
      nowhere otherwise. */
  function Target(r: nat, from: Posicion, mov: Movimiento): (neu: Posicion)
    ensures 0 <= from.x < 2 * r && 0 <= from.y < 2 * r ==> 0 <= neu.x < 2 * r && 0 <= neu.y < 2 * r
    ensures mov != Movimiento(0, 0) ==> (IsInDish(r, Posicion(from.x + mov.dx, from.y + mov.dy)) <==> neu != from)
  {
    var raw := Posicion(from.x + mov.dx, from.y + mov.dy);
    if IsInDish(r, raw) then
      InDishInGrid(r, raw);
      Posicion(from.x + Sign(mov.dx), from.y + Sign(mov.dy))
    else from
  }

  /** The field after `compite` of the agent at `from` against the one at
      `to`: the energies settle (Fought) and the Loser is removed when it is
      left without energy. */
  function Fight(g: seq<seq<Celda>>, w: nat, h: nat, from: Posicion, to: Posicion, up: bool): (f: seq<seq<Celda>>)
    requires IsGrid(g, w, h) && 0 <= from.x < w && 0 <= from.y < h && 0 <= to.x < w && 0 <= to.y < h
    ensures IsGrid(f, w, h)
  {
    var los := Loser(g, from, to, up);
    var f: seq<seq<Celda>> := Fought(g, from, to, up);
    FoughtGrid(g, w, h, from, to, up);
    if f[los.x][los.y].energiaMo > 0.0 then f
    else
      IsGridSet(f, w, h, los.x, los.y, f[los.x][los.y].(idMo := Vacio, energiaMo := 0.0));
      Set2(f, los.x, los.y, f[los.x][los.y].(idMo := Vacio, energiaMo := 0.0))
  }

  lemma FoughtGrid(g: seq<seq<Celda>>, w: nat, h: nat, from: Posicion, to: Posicion, up: bool)
    requires IsGrid(g, w, h) && 0 <= from.x < w && 0 <= from.y < h && 0 <= to.x < w && 0 <= to.y < h
    ensures IsGrid(Fought(g, from, to, up), w, h)
  {
    var (dw, ew, el) := Combat(g[from.x][from.y].energiaMo, g[to.x][to.y].energiaMo, up);
    var (win, los) := if dw then (to, from) else (from, to);
    IsGridSet(g, w, h, win.x, win.y, g[win.x][win.y].(energiaMo := ew));
    IsGridSet(Set2(g, win.x, win.y, g[win.x][win.y].(energiaMo := ew)), w, h, los.x, los.y, g[los.x][los.y].(energiaMo := el));
  }

  /** The field after the movement step of the agent at `here` that cached
      mov: nothing changes when mov is (0, 0) or its raw target lies outside
      the dish; otherwise the agent steps into an empty Target, fights an
      agent of another colony there, and stays when its own colony holds
      it. */
  function Followed(g: seq<seq<Celda>>, r: nat, here: Posicion, mov: Movimiento, up: bool): (f: seq<seq<Celda>>)
    requires IsGrid(g, 2 * r, 2 * r) && 0 <= here.x < 2 * r && 0 <= here.y < 2 * r
    ensures IsGrid(f, 2 * r, 2 * r)
  {
    var neu := Target(r, here, mov);
    if mov == Movimiento(0, 0) || !IsInDish(r, Posicion(here.x + mov.dx, here.y + mov.dy)) then g
    else if g[neu.x][neu.y].idMo == Vacio then
      MovedSameNutrients(g, 2 * r, 2 * r, here, neu);
      MovedCells(g, here, neu)
    else if g[neu.x][neu.y].idMo != g[here.x][here.y].idMo then Fight(g, 2 * r, 2 * r, here, neu, up)
    else g
  }

  /** The field after `mitosis` of the agent at pos: the division into the
      Child cell, or no change when no offset of order leads to one. */
  function Mitosed(g: seq<seq<Celda>>, r: nat, pos: Posicion, order: seq<Movimiento>): (f: seq<seq<Celda>>)
    requires IsGrid(g, 2 * r, 2 * r) && 0 <= pos.x < 2 * r && 0 <= pos.y < 2 * r
    ensures IsGrid(f, 2 * r, 2 * r) && f[pos.x][pos.y].idMo == g[pos.x][pos.y].idMo
  {
    var child := Child(r, g, pos, order);
    if child.None? then g
    else
      DividedSameNutrients(g, 2 * r, 2 * r, pos, child.value);
      Divided(g, pos, child.value)
  }

  /** The field after a survivor at `here` that cached the wish dup and
      the movement mov: it divides when dup holds, then follows mov. */
  function Acted(g: seq<seq<Celda>>, r: nat, here: Posicion, dup: bool, mov: Movimiento,
                 order: seq<Movimiento>, up: bool): (f: seq<seq<Celda>>)
    requires IsGrid(g, 2 * r, 2 * r) && 0 <= here.x < 2 * r && 0 <= here.y < 2 * r
    ensures IsGrid(f, 2 * r, 2 * r)
  {
    Followed(if dup then Mitosed(g, r, here, order) else g, r, here, mov, up)
  }

  /** The turn `move_colonies` gives an agent of class k at p, on the
      field g read with the offset (rx, ry): the field after it and whether
      an AttributeError was raised. The agent feeds; an agent of the
      Spanish base then raises. Any other agent caches the decision of its
      class on the fed field and, for an MOyy above 500 units, the wish to
      divide; it pays for the movement and is removed without energy
      (Metabolised); a survivor Acts on what it cached. */
  function Turned(g: seq<seq<Celda>>, r: nat, k: Kind, rx: int, ry: int, p: Posicion,
                  order: seq<Movimiento>, up: bool): (o: (seq<seq<Celda>>, bool))
    requires r > 0 && IsGrid(g, 2 * r, 2 * r) && 0 <= p.x < 2 * r && 0 <= p.y < 2 * r
    ensures IsGrid(o.0, 2 * r, 2 * r)
  {
    var w := 2 * r;
    var xr, yr := (p.x + rx) % w, (p.y + ry) % w;
    var f := FedCells(g, w, w, p.x, p.y, xr, yr);
    if BaseOf(k) == Spanish then (f, true)
    else
      var mov := Microorg.Choice(k, f, w, w, rx, ry, p);
      var m := Metabolised(g, w, w, p.x, p.y, xr, yr, mov != Movimiento(0, 0));
      if m[p.x][p.y].idMo == Vacio then (m, false)
      else (Acted(m, r, p, k == MOyy && f[p.x][p.y].energiaMo > 500.0, mov, order, up), false)
  }

  /** The turn of the snapshot entry p, where kinds[c] is the class of
      colony c + 1: nothing happens when the cell has emptied (or holds no
      colony), otherwise the agent there takes its Turned. */
  function TurnOutcome(g: seq<seq<Celda>>, r: nat, kinds: seq<Kind>, rx: int, ry: int, p: Posicion,
                       order: seq<Movimiento>, up: bool): (o: (seq<seq<Celda>>, bool))
    requires r > 0 && IsGrid(g, 2 * r, 2 * r) && 0 <= p.x < 2 * r && 0 <= p.y < 2 * r
    ensures IsGrid(o.0, 2 * r, 2 * r)
  {
    var id := g[p.x][p.y].idMo;
    if !(1 <= id <= |kinds|) then (g, false)
    else Turned(g, r, kinds[id - 1], rx, ry, p, order, up)
  }

  function Min(a: int, b: int): int
  {
    if a < b then a else b
  }

  /** The first m draws of a tick: nothing for m = 0, otherwise the
      outcome of draw m - 1. */
  function TurnsOutcome(g: seq<seq<Celda>>, r: nat, kinds: seq<Kind>, rx: int, ry: int,
                        alives: seq<Posicion>, d: TickDraws, m: nat): (o: (seq<seq<Celda>>, bool))
    requires r > 0 && IsGrid(g, 2 * r, 2 * r)
    requires forall p :: p in alives ==> 0 <= p.x < 2 * r && 0 <= p.y < 2 * r
    requires m <= |d.shuffle| && |d.orders| == |d.shuffle| && |d.ups| == |d.shuffle|
    ensures IsGrid(o.0, 2 * r, 2 * r)
    decreases m, 1
  {
    if m == 0 then (g, false) else DrawOutcome(g, r, kinds, rx, ry, alives, d, m - 1)
  }

  /** Draw k of a tick, after the first k: it picks the snapshot entry
      whose agent takes its TurnOutcome; a draw outside the snapshot is
      skipped, and after an AttributeError nothing more happens. */
  function DrawOutcome(g: seq<seq<Celda>>, r: nat, kinds: seq<Kind>, rx: int, ry: int,
                       alives: seq<Posicion>, d: TickDraws, k: nat): (o: (seq<seq<Celda>>, bool))
    requires r > 0 && IsGrid(g, 2 * r, 2 * r)
    requires forall p :: p in alives ==> 0 <= p.x < 2 * r && 0 <= p.y < 2 * r
    requires k < |d.shuffle| && |d.orders| == |d.shuffle| && |d.ups| == |d.shuffle|
    ensures IsGrid(o.0, 2 * r, 2 * r)
    decreases k + 1, 0
  {
    var prev := TurnsOutcome(g, r, kinds, rx, ry, alives, d, k);
    var rk := d.shuffle[k];
    if prev.1 || !(0 <= rk < |alives|) then prev
    else TurnOutcome(prev.0, r, kinds, rx, ry, alives[rk], d.orders[k], d.ups[k])
  }

  /** The field c and the flag raised are those the first m draws of the
      tick leave on g. */
  ghost predicate TickAt(c: seq<seq<Celda>>, raised: bool, g: seq<seq<Celda>>, r: nat, kinds: seq<Kind>,
                         rx: int, ry: int, alives: seq<Posicion>, d: TickDraws, m: nat)
    requires r > 0 && IsGrid(g, 2 * r, 2 * r)
    requires forall p :: p in alives ==> 0 <= p.x < 2 * r && 0 <= p.y < 2 * r
    requires m <= |d.shuffle| && |d.orders| == |d.shuffle| && |d.ups| == |d.shuffle|
  {
    (c, raised) == TurnsOutcome(g, r, kinds, rx, ry, alives, d, m)
  }

  /** Once a turn has raised, the later draws change nothing. */
  lemma {:induction false} RaisedSticks(g: seq<seq<Celda>>, r: nat, kinds: seq<Kind>, rx: int, ry: int,
                                        alives: seq<Posicion>, d: TickDraws, m: nat, n: nat)
    requires r > 0 && IsGrid(g, 2 * r, 2 * r)
    requires forall p :: p in alives ==> 0 <= p.x < 2 * r && 0 <= p.y < 2 * r
    requires m <= n <= |d.shuffle| && |d.orders| == |d.shuffle| && |d.ups| == |d.shuffle|
    requires TurnsOutcome(g, r, kinds, rx, ry, alives, d, m).1
    ensures TurnsOutcome(g, r, kinds, rx, ry, alives, d, n) == TurnsOutcome(g, r, kinds, rx, ry, alives, d, m)
    decreases n - m
  {
    if m < n {
      RaisedSticks(g, r, kinds, rx, ry, alives, d, m, n - 1);
    }
  }

  /** N_COL distinct colonies numbered from 1, well formed on a w by h
      field and holding no agent yet. */
  ghost predicate Unsown(cols: seq<Colonia.Colonia>, w: nat, h: nat)
    reads set c | c in cols
  {
    |cols| == NCol &&
    (forall k :: 0 <= k < NCol ==>
       cols[k].Valid() && cols[k].Rectangular() && cols[k].Counted() && cols[k].ident == k + 1 &&
       cols[k].maxX == w && cols[k].maxY == h && cols[k].myMos == Empty(w, h)) &&
    forall k, l :: 0 <= k < l < NCol ==> cols[k] != cols[l]
  }

  /** g is the field `Petri.__init__` leaves: the sowing of the draws on an
      empty 2r by 2r field, then the nutrients of distribution dist. */
  ghost predicate Sown(g: seq<seq<Celda>>, r: nat, draws: seq<Posicion>, dist: int, gauss: (int, int) -> real)
  {
    var s := SeedColonies(r, Blank(r), draws, NCol).0;
    IsGrid(g, 2 * r, 2 * r) && (dist == 4 ==> 2 * r >= 4) &&
    forall i, j :: 0 <= i < 2 * r && 0 <= j < 2 * r ==> g[i][j] == Fertile(s, 2 * r, 2 * r, i, j, dist, gauss)
  }

  /** The colonies of `__init__`: for each c below N_COL, `add_colony`
      makes an empty colony of class kinds[c] with identity c + 1. */
  method NewColonies(kinds: seq<Kind>, rad: nat) returns (cols: seq<Colonia.Colonia>)
    requires |kinds| == NCol
    ensures |cols| == NCol
    ensures forall k :: 0 <= k < NCol ==> fresh(cols[k]) && cols[k].kind == kinds[k]
    ensures Unsown(cols, 2 * rad, 2 * rad)
  {
    cols := [];
    for c := 0 to NCol
      invariant |cols| == c
      invariant forall k :: 0 <= k < c ==> fresh(cols[k]) && cols[k].kind == kinds[k]
      invariant forall k :: 0 <= k < c ==>
                  cols[k].Valid() && cols[k].Rectangular() && cols[k].Counted() && cols[k].ident == k + 1 &&
                  cols[k].maxX == 2 * rad && cols[k].maxY == 2 * rad && cols[k].myMos == Empty(2 * rad, 2 * rad)
      invariant forall k, l :: 0 <= k < l < c ==> cols[k] != cols[l]
    {
      var col := new Colonia.Colonia(kinds[c], c + 1, rad);
      cols := cols + [col];
    }
  }

  class Petri {
    const radius: nat
    const maxX: nat
    const maxY: nat
    /** Drift direction of the nutrients. */
    var dx: int
    var dy: int
    var distN: int
    /** The clock. */
    var t: int
    /** The shared field the agents read. */
    const agar: Agar
    const colonies: seq<Colonia.Colonia>
    /** The snapshot of the last tick. */
    var alives: seq<Posicion>

    /** `Petri.__init__`: a 2 rad by 2 rad field of empty cells, one colony
        of class kinds[c] with identity c + 1 for each c below N_COL, the
        sowing of MOS_INICIAL agents per colony from `draws` (the pairs of
        `random.randint`), the nutrients of distribution `dist` (`gauss`
        stands for the two gaussians of distribution 5), and the initial
        read offset and drift direction drawn as `offset` and `dir`.
        Distribution 4 on a field narrower than 4 raises ZeroDivisionError,
        which callers must avoid. */
    constructor(a: Agar, rad: nat, dist: int, kinds: seq<Kind>, draws: seq<Posicion>,
                gauss: (int, int) -> real, offset: (int, int), dir: (int, int))
      requires rad > 0 && |kinds| == NCol && (dist == 4 ==> 2 * rad >= 4)
      requires forall i, j :: 0 <= i < 2 * rad && 0 <= j < 2 * rad ==> gauss(i, j) >= 0.0
      modifies a
      ensures Valid() && agar == a
      ensures (radius, maxX, t, alives, distN, agar.distN) == (rad, 2 * rad, 0, [], dist, dist)
      ensures forall c :: 0 <= c < NCol ==> colonies[c].kind == kinds[c] && fresh(colonies[c])
      ensures (agar.rx, agar.ry, dx, dy) == (offset.0 - rad, offset.1 - rad, dir.0, dir.1)
      ensures Sown(agar.celdas, rad, draws, dist, gauss)
    {
      radius, maxX, maxY := rad, 2 * rad, 2 * rad;
      dx, dy, distN, t := dir.0, dir.1, dist, 0;
      alives := [];
      agar := a;
      a.celdas, a.mxX, a.mxY := Blank(rad), 2 * rad, 2 * rad;
      a.distN := dist;
      a.rx, a.ry := offset.0 - rad, offset.1 - rad;
      var cols := NewColonies(kinds, rad);
      colonies := cols;
      new;
      Started();
      Prepare(draws, dist, gauss);
    }

    /** The sowing and the nutrient loop of `__init__` on the empty dish. */
    method Prepare(draws: seq<Posicion>, dist: int, gauss: (int, int) -> real)
      requires Valid() && (dist == 4 ==> maxX >= 4)
      requires forall i, j :: 0 <= i < maxX && 0 <= j < maxY ==> gauss(i, j) >= 0.0
      modifies agar, Cols()
      ensures Valid() && (agar.rx, agar.ry, agar.distN) == old((agar.rx, agar.ry, agar.distN))
      ensures old(agar.celdas) == Blank(radius) ==> Sown(agar.celdas, radius, draws, dist, gauss)
    {
      SeedAll(draws);
      var total := Fertilise(dist, gauss);
    }

    /** The class of each colony, by identity less one. */
    function Kinds(): (ks: seq<Kind>)
      ensures |ks| == |colonies| && forall c :: 0 <= c < |colonies| ==> ks[c] == colonies[c].kind
    {
      seq(|colonies|, c requires 0 <= c < |colonies| => colonies[c].kind)
    }

    ghost function Cols(): set<Colonia.Colonia>
    {
      set c | c in colonies
    }

    /** Every agent object of every colony. */
    ghost function Agents(): set<Microorg.Microorganismo>
      reads Cols()
    {
      set k, a | 0 <= k < |colonies| && a in colonies[k].Repr :: a
    }

    /** Colony `col` is well formed, full-width, counted, has identity id,
        and its agents sit exactly on the cells of g with that id. */
    ghost predicate ColonyOk(col: Colonia.Colonia, id: int, g: seq<seq<Celda>>)
      reads col
    {
      col.Valid() && col.Rectangular() && col.Counted() && col.ident == id &&
      col.maxX == maxX && col.maxY == maxY && Mirrors(g, col.myMos, id, maxX, maxY)
    }

    /** The structure the rules keep: a 2R by 2R field, N_COL distinct
        colonies numbered from 1, each mirroring the field. The clause on
        colony c is used where its agent grid is looked at. */
    ghost predicate Inv()
      reads agar, Cols()
    {
      radius > 0 && maxX == 2 * radius && maxY == 2 * radius &&
      agar.mxX == maxX && agar.mxY == maxY && agar.Valid() &&
      |colonies| == NCol &&
      (forall c, d :: 0 <= c < |colonies| && 0 <= d < |colonies| && c != d ==> colonies[c] != colonies[d]) &&
      (forall c {:trigger colonies[c].myMos} :: 0 <= c < |colonies| ==> ColonyOk(colonies[c], c + 1, agar.celdas))
    }

    /** Inv, and every cell CellOk. */
    ghost predicate Valid()
      reads agar, Cols()
    {
      Inv() && CellsOk(agar.celdas, maxX, maxY)
    }

    /** The dish `__init__` has built before sowing is valid: an empty
        field and empty colonies. */
    lemma Started()
      requires radius > 0 && maxX == 2 * radius && maxY == 2 * radius
      requires agar.mxX == maxX && agar.mxY == maxY && agar.celdas == Blank(radius)
      requires Unsown(colonies, maxX, maxY)
      ensures Valid()
    {
      forall c | 0 <= c < NCol
        ensures Mirrors(agar.celdas, colonies[c].myMos, c + 1, maxX, maxY)
      {
        BlankMirrors(radius, c + 1);
      }
    }

    /** The colonies' counters count the field: `n_mo_alives` of colony c
        is the number of cells holding id c + 1. */
    lemma ColonyCounts()
      requires Valid()
      ensures forall c :: 0 <= c < |colonies| ==> colonies[c].NAlives() == IdCount(agar.celdas, c + 1)
    {
      forall c | 0 <= c < |colonies|
        ensures colonies[c].NAlives() == IdCount(agar.celdas, c + 1)
      {
        MirrorsCount(agar.celdas, colonies[c].myMos, c + 1, maxX, maxY);
      }
    }

    /** `colony_name` as written: it calls `name()` on the colony with
        identity id (taken modulo N_COL as Python's `%` does), and `Colonia`
        has no such method, so every call raises AttributeError (None). */
    function ColonyName(id: int): (r: Option<string>)
      reads this, agar, Cols()
      requires Valid()
      ensures r.None?
    {
      colonies[(id - 1) % NCol].CallText("name")
    }

    /** `author_name` as written: `author()` is not a method of `Colonia`
        either, so every call raises AttributeError (None). */
    function AuthorName(id: int): (r: Option<string>)
      reads this, agar, Cols()
      requires Valid()
      ensures r.None?
    {
      colonies[(id - 1) % NCol].CallText("author")
    }

    /** `colony_name` calling the colony's `nombre()`, the method that
        `Colonia` does define: the name of the class of colony id. */
    function ColonyNombre(id: int): (r: Option<string>)
      reads this, agar, Cols()
      requires Valid()
      ensures r == Some(Mos.Nombre(colonies[(id - 1) % NCol].kind))
    {
      colonies[(id - 1) % NCol].CallText("nombre")
    }

    /** `author_name` calling the colony's `autor()`: the author of the
        class of colony id. */
    function AuthorAutor(id: int): (r: Option<string>)
      reads this, agar, Cols()
      requires Valid()
      ensures r == Some(Mos.Autor(colonies[(id - 1) % NCol].kind))
    {
      colonies[(id - 1) % NCol].CallText("autor")
    }

    /** `kill_mo`: the cell becomes VACIO with no energy and the colony
        named by its id removes the agent; its nutrients stay. */
    method KillMo(pos: Posicion)
      requires Inv() && 0 <= pos.x < maxX && 0 <= pos.y < maxY
      requires 0 <= agar.celdas[pos.x][pos.y].idMo <= NCol
      modifies agar, Cols()
      ensures Inv() && forall c :: 0 <= c < |colonies| ==> colonies[c].Repr == old(colonies[c].Repr)
      ensures agar.rx == old(agar.rx) && agar.ry == old(agar.ry) && agar.distN == old(agar.distN)
      ensures agar.celdas == Set2(old(agar.celdas), pos.x, pos.y,
                                  old(agar.celdas[pos.x][pos.y]).(idMo := Vacio, energiaMo := 0.0))
      ensures forall c :: 0 <= c < |colonies| ==>
                colonies[c].myMos == Set2(old(colonies[c].myMos), pos.x, pos.y, None)
      ensures SameNutrients(old(agar.celdas), agar.celdas, maxX, maxY)
    {
      var idMo := agar.celdas[pos.x][pos.y].idMo;
      ghost var g: seq<seq<Celda>> := agar.celdas;
      agar.celdas := Set2(agar.celdas, pos.x, pos.y, agar.celdas[pos.x][pos.y].(idMo := Vacio, energiaMo := 0.0));
      SetSameNutrients(g, maxX, maxY, pos.x, pos.y, agar.celdas[pos.x][pos.y]);
      // `id_mo - 1 < len(colonies)` always holds: ids stay in 0..N_COL
      var k := Index(idMo - 1, |colonies|).value;
      colonies[k].Kill(pos.x, pos.y);
      forall c | 0 <= c < |colonies|
        ensures ColonyOk(colonies[c], c + 1, agar.celdas)
        ensures colonies[c].myMos == Set2(old(colonies[c].myMos), pos.x, pos.y, None)
      {
        MirrorsSet(g, old(colonies[c].myMos), c + 1, maxX, maxY, pos.x, pos.y,
                   g[pos.x][pos.y].(idMo := Vacio, energiaMo := 0.0), None);
        if old(colonies[c].myMos)[pos.x][pos.y].None? {
          SetSame(old(colonies[c].myMos), pos.x, pos.y);
        }
        if c != k {
          assert colonies[c].myMos == old(colonies[c].myMos);
        }
      }
    }

    /** `create_mo`: an empty cell gets the id and energy, and colony id
        places a new agent on it. */
    method CreateMo(pos: Posicion, id: int, ener: real)
      requires Inv() && 0 <= pos.x < maxX && 0 <= pos.y < maxY
      requires agar.celdas[pos.x][pos.y].idMo == Vacio && 1 <= id <= NCol
      modifies agar, Cols()
      ensures Inv()
      ensures forall c :: 0 <= c < |colonies| ==>
                old(colonies[c].Repr) <= colonies[c].Repr && fresh(colonies[c].Repr - old(colonies[c].Repr))
      ensures agar.rx == old(agar.rx) && agar.ry == old(agar.ry) && agar.distN == old(agar.distN)
      ensures agar.celdas == Set2(old(agar.celdas), pos.x, pos.y,
                                  old(agar.celdas[pos.x][pos.y]).(idMo := id, energiaMo := ener))
      ensures forall c :: 0 <= c < |colonies| && c != id - 1 ==> colonies[c].myMos == old(colonies[c].myMos)
      ensures colonies[id - 1].myMos[pos.x][pos.y].Some? &&
              colonies[id - 1].myMos == Set2(old(colonies[id - 1].myMos), pos.x, pos.y, colonies[id - 1].myMos[pos.x][pos.y])
      ensures forall c :: 0 <= c < |colonies| ==> colonies[c].movs == old(colonies[c].movs)
    {
      ghost var g: seq<seq<Celda>> := agar.celdas;
      agar.celdas := Set2(agar.celdas, pos.x, pos.y, agar.celdas[pos.x][pos.y].(idMo := id, energiaMo := ener));
      // `id - 1 < len(colonies)` always holds here
      colonies[id - 1].Create(pos.x, pos.y);
      forall c | 0 <= c < |colonies|
        ensures ColonyOk(colonies[c], c + 1, agar.celdas)
        ensures old(colonies[c].Repr) <= colonies[c].Repr && fresh(colonies[c].Repr - old(colonies[c].Repr))
        ensures colonies[c].movs == old(colonies[c].movs)
        ensures c != id - 1 ==> colonies[c].myMos == old(colonies[c].myMos)
      {
        if c == id - 1 {
          MirrorsSet(g, old(colonies[c].myMos), c + 1, maxX, maxY, pos.x, pos.y,
                     g[pos.x][pos.y].(idMo := id, energiaMo := ener), colonies[c].myMos[pos.x][pos.y]);
        } else {
          assert colonies[c].myMos == old(colonies[c].myMos);
          SetSame(old(colonies[c].myMos), pos.x, pos.y);
          MirrorsSet(g, old(colonies[c].myMos), c + 1, maxX, maxY, pos.x, pos.y,
                     g[pos.x][pos.y].(idMo := id, energiaMo := ener), None);
        }
      }
    }

    /** `move_mo`: the id and energy of `from` go to the empty cell `to`,
        `from` becomes VACIO with no energy, nutrients stay, and the colony
        moves its agent object along. */
    method MoveMo(from: Posicion, to: Posicion)
      requires Valid() && 0 <= from.x < maxX && 0 <= from.y < maxY && 0 <= to.x < maxX && 0 <= to.y < maxY
      requires from != to && 1 <= agar.celdas[from.x][from.y].idMo <= NCol
      requires agar.celdas[to.x][to.y].idMo == Vacio
      modifies agar, Cols()
      ensures Valid() && forall c :: 0 <= c < |colonies| ==> colonies[c].Repr == old(colonies[c].Repr)
      ensures agar.rx == old(agar.rx) && agar.ry == old(agar.ry) && agar.distN == old(agar.distN)
      ensures agar.celdas == MovedCells(old(agar.celdas), from, to)
      ensures forall c :: 0 <= c < |colonies| ==> colonies[c].myMos == MovedSlots(old(colonies[c].myMos), from, to)
      ensures SameNutrients(old(agar.celdas), agar.celdas, maxX, maxY)
    {
      var idMo := agar.celdas[from.x][from.y].idMo;
      ghost var g: seq<seq<Celda>> := agar.celdas;
      MoveCell(from, to);
      // `id_mo - 1 < len(colonies)` always holds here
      ShiftSlot(idMo, from, to, g);
      assert agar.celdas == MovedCells(g, from, to);
    }

    /** The colony half of `move_mo`: the colony of the mover moves its
        agent object along, and every colony mirrors the moved field. */
    method ShiftSlot(id: int, from: Posicion, to: Posicion, ghost g: seq<seq<Celda>>)
      requires 1 <= id <= NCol && |colonies| == NCol && IsGrid(g, maxX, maxY)
      requires 0 <= from.x < maxX && 0 <= from.y < maxY && 0 <= to.x < maxX && 0 <= to.y < maxY && from != to
      requires g[from.x][from.y].idMo == id && g[to.x][to.y].idMo == Vacio
      requires forall c, d :: 0 <= c < |colonies| && 0 <= d < |colonies| && c != d ==> colonies[c] != colonies[d]
      requires forall c :: 0 <= c < |colonies| ==> ColonyOk(colonies[c], c + 1, g)
      modifies colonies[id - 1]
      ensures forall c :: 0 <= c < |colonies| ==>
                old(ColonyOk(colonies[c], c + 1, g)) &&
                colonies[c].myMos == MovedSlots(old(colonies[c].myMos), from, to) &&
                ColonyOk(colonies[c], c + 1, MovedCells(g, from, to)) &&
                colonies[c].Repr == old(colonies[c].Repr)
    {
      CountMove(colonies[id - 1].myMos, from.x, from.y, to.x, to.y);
      colonies[id - 1].MoveWithin(from, to);
      forall c | 0 <= c < |colonies|
        ensures ColonyOk(colonies[c], c + 1, MovedCells(g, from, to))
        ensures colonies[c].myMos == MovedSlots(old(colonies[c].myMos), from, to)
      {
        MirrorsMove(g, old(colonies[c].myMos), c + 1, maxX, maxY, from, to);
      }
    }

    /** The field half of `move_mo`: the agent's id and energy go from
        `from` to `to`, and `from` is emptied. */
    method MoveCell(from: Posicion, to: Posicion)
      requires IsGrid(agar.celdas, maxX, maxY)
      requires 0 <= from.x < maxX && 0 <= from.y < maxY && 0 <= to.x < maxX && 0 <= to.y < maxY
      modifies agar`celdas
      ensures agar.celdas == MovedCells(old(agar.celdas), from, to) && IsGrid(agar.celdas, maxX, maxY)
      ensures CellsOk(old(agar.celdas), maxX, maxY) ==> CellsOk(agar.celdas, maxX, maxY)
      ensures SameNutrients(old(agar.celdas), agar.celdas, maxX, maxY)
    {
      ghost var g: seq<seq<Celda>> := agar.celdas;
      var cells: seq<seq<Celda>> := agar.celdas;
      cells := Set2(cells, to.x, to.y, cells[to.x][to.y].(idMo := cells[from.x][from.y].idMo,
                                                        energiaMo := cells[from.x][from.y].energiaMo));
      cells := Set2(cells, from.x, from.y, cells[from.x][from.y].(idMo := Vacio, energiaMo := 0.0));
      assert cells == MovedCells(g, from, to);
      agar.celdas := cells;
      MovedSameNutrients(g, maxX, maxY, from, to);
      if CellsOk(g, maxX, maxY) {
        MovedOk(g, maxX, maxY, from, to);
      }
    }

    /** `can_move`: the move succeeds when the raw target is in the dish,
        and the agent then steps one cell along the sign of each component;
        otherwise it stays. */
    method CanMove(from: Posicion, mov: Movimiento) returns (ok: bool, neu: Posicion)
      ensures ok <==> IsInDish(radius, Posicion(from.x + mov.dx, from.y + mov.dy))
      ensures ok ==> neu == Posicion(from.x + Sign(mov.dx), from.y + Sign(mov.dy))
      ensures !ok ==> neu == from
      ensures 0 <= from.x < 2 * radius && 0 <= from.y < 2 * radius ==> 0 <= neu.x < 2 * radius && 0 <= neu.y < 2 * radius
      ensures mov != Movimiento(0, 0) && ok ==> neu != from
      ensures neu == Target(radius, from, mov)
    {
      neu := from;
      var pos := Posicion(from.x + mov.dx, from.y + mov.dy);
      if IsInDish(radius, pos) {
        InDishInGrid(radius, pos);
        if mov.dx > 0 {
          neu := neu.(x := from.x + 1);
        } else if mov.dx < 0 {
          neu := neu.(x := from.x - 1);
        }
        if mov.dy > 0 {
          neu := neu.(y := from.y + 1);
        } else if mov.dy < 0 {
          neu := neu.(y := from.y - 1);
        }
        return true, neu;
      }
      return false, neu;
    }

    /** The energy settlement of `compite`: returns the loser. */
    method Settle(from: Posicion, to: Posicion, up: bool) returns (los: Posicion)
      requires Inv() && 0 <= from.x < maxX && 0 <= from.y < maxY
      requires 0 <= to.x < maxX && 0 <= to.y < maxY && from != to
      modifies agar
      ensures Inv()
      ensures agar.rx == old(agar.rx) && agar.ry == old(agar.ry) && agar.distN == old(agar.distN)
      ensures los == Loser(old(agar.celdas), from, to, up)
      ensures agar.celdas == Fought(old(agar.celdas), from, to, up)
      ensures SameNutrients(old(agar.celdas), agar.celdas, maxX, maxY)
    {
      ghost var g: seq<seq<Celda>> := agar.celdas;
      var ener1 := agar.celdas[from.x][from.y].energiaMo;
      var ener2 := agar.celdas[to.x][to.y].energiaMo;
      if ener2 == ener1 {
        ener2 := ener2 + if up then 0.01 else -0.01;
      }
      var win := from;
      los := to;
      if ener2 > ener1 {
        win, los := to, from;
      }
      var diff := if ener2 - ener1 >= 0.0 then ener2 - ener1 else ener1 - ener2;
      SetEnergy(win.x, win.y, agar.celdas[win.x][win.y].energiaMo + 0.075 * agar.celdas[los.x][los.y].energiaMo);
      SetSameNutrients(g, maxX, maxY, win.x, win.y, agar.celdas[win.x][win.y]);
      ghost var f: seq<seq<Celda>> := agar.celdas;
      SetEnergy(los.x, los.y, agar.celdas[los.x][los.y].energiaMo - diff);
      SetSameNutrients(f, maxX, maxY, los.x, los.y, agar.celdas[los.x][los.y]);
      SameNutrientsTrans(g, f, agar.celdas, maxX, maxY);
    }

    /** `compite`: the agent at `from` fights the one at `to`. With
        (dw, ew, el) = Combat(e1, e2, up), the winner (the defender exactly
        when dw) ends with ew and the loser with el, and the loser is killed
        when el is not positive; nobody changes cell. `up` is the draw that
        breaks a tie of energies. */
    method Compite(from: Posicion, to: Posicion, up: bool)
      requires Valid() && 0 <= from.x < maxX && 0 <= from.y < maxY && 0 <= to.x < maxX && 0 <= to.y < maxY
      requires agar.celdas[from.x][from.y].idMo != Vacio && agar.celdas[to.x][to.y].idMo != Vacio
      requires agar.celdas[from.x][from.y].idMo != agar.celdas[to.x][to.y].idMo
      modifies agar, Cols()
      ensures Valid() && forall c :: 0 <= c < |colonies| ==> colonies[c].Repr == old(colonies[c].Repr)
      ensures agar.rx == old(agar.rx) && agar.ry == old(agar.ry) && agar.distN == old(agar.distN)
      ensures var g := old(agar.celdas);
        var los := Loser(g, from, to, up);
        var f := Fought(g, from, to, up);
        if f[los.x][los.y].energiaMo > 0.0 then
          agar.celdas == f &&
          forall c :: 0 <= c < |colonies| ==> colonies[c].myMos == old(colonies[c].myMos)
        else
          agar.celdas == Set2(f, los.x, los.y, f[los.x][los.y].(idMo := Vacio, energiaMo := 0.0)) &&
          forall c :: 0 <= c < |colonies| ==> colonies[c].myMos == Set2(old(colonies[c].myMos), los.x, los.y, None)
      ensures SameNutrients(old(agar.celdas), agar.celdas, maxX, maxY)
    {
      ghost var g: seq<seq<Celda>> := agar.celdas;
      var los := Settle(from, to, up);
      assert from != to;
      CombatSpec(g[from.x][from.y].energiaMo, g[to.x][to.y].energiaMo, up);
      var win := if los == from then to else from;
      FoughtOk(g, maxX, maxY, win, los, agar.celdas);
      if agar.celdas[los.x][los.y].energiaMo <= 0.0 {
        ghost var f: seq<seq<Celda>> := agar.celdas;
        KillMo(los);
        KilledOk(f, maxX, maxY, los);
        SameNutrientsTrans(g, f, agar.celdas, maxX, maxY);
      }
    }

    /** The division step of `mitosis` once the free neighbour p is found:
        the parent keeps Half of its energy and the child gets the same. */
    method Divide(pos: Posicion, p: Posicion)
      requires Valid() && 0 <= pos.x < maxX && 0 <= pos.y < maxY && 0 <= p.x < maxX && 0 <= p.y < maxY
      requires agar.celdas[pos.x][pos.y].idMo != Vacio && agar.celdas[p.x][p.y].idMo == Vacio
      modifies agar, Cols()
      ensures Valid()
      ensures forall c :: 0 <= c < |colonies| ==>
                old(colonies[c].Repr) <= colonies[c].Repr && fresh(colonies[c].Repr - old(colonies[c].Repr))
      ensures agar.rx == old(agar.rx) && agar.ry == old(agar.ry) && agar.distN == old(agar.distN)
      ensures forall c :: 0 <= c < |colonies| ==> colonies[c].movs == old(colonies[c].movs)
      ensures agar.celdas == Divided(old(agar.celdas), pos, p)
      ensures colonies[old(agar.celdas[pos.x][pos.y].idMo) - 1].myMos[p.x][p.y].Some?
    {
      ghost var g: seq<seq<Celda>> := agar.celdas;
      var ener1 := agar.celdas[pos.x][pos.y].energiaMo;
      var ener := ener1 * 0.5 - ener1 * 0.01;
      HalfSpec(ener1);
      SetEnergy(pos.x, pos.y, ener);
      CreateMo(p, agar.celdas[pos.x][pos.y].idMo, ener);
      DividedOk(g, maxX, maxY, pos, p, agar.celdas);
    }

    /** `mitosis`: the offsets of `order` are tried in turn and the first
        that leads to an empty cell of the dish receives an agent of the same
        colony; parent and child both keep Half of the parent's energy. With
        no such offset nothing changes. `order` stands for the shuffled list
        of the eight neighbour offsets. */
    method Mitosis(pos: Posicion, order: seq<Movimiento>)
      requires Valid() && 0 <= pos.x < maxX && 0 <= pos.y < maxY
      requires agar.celdas[pos.x][pos.y].idMo != Vacio
      modifies agar, Cols()
      ensures Valid()
      ensures forall c :: 0 <= c < |colonies| ==>
                old(colonies[c].Repr) <= colonies[c].Repr && fresh(colonies[c].Repr - old(colonies[c].Repr))
      ensures agar.rx == old(agar.rx) && agar.ry == old(agar.ry) && agar.distN == old(agar.distN)
      ensures forall c :: 0 <= c < |colonies| ==> colonies[c].movs == old(colonies[c].movs)
      ensures var g := old(agar.celdas);
        var child := Child(radius, g, pos, order);
        if child.None? then
          agar.celdas == g && forall c :: 0 <= c < |colonies| ==> colonies[c].myMos == old(colonies[c].myMos)
        else
          agar.celdas == Divided(g, pos, child.value)
      ensures SameNutrients(old(agar.celdas), agar.celdas, maxX, maxY)
      ensures agar.celdas[pos.x][pos.y].idMo == old(agar.celdas[pos.x][pos.y].idMo)
    {
      var placeFound, neu := FreeNeighbour(pos, order);
      if placeFound {
        DividedSameNutrients(agar.celdas, maxX, maxY, pos, neu);
        Divide(pos, neu);
      }
    }

    /** The search loop of `mitosis`: the first offset of `order` leading to
        an empty cell of the dish, the Child cell. */
    method FreeNeighbour(pos: Posicion, order: seq<Movimiento>) returns (placeFound: bool, neu: Posicion)
      requires Inv()
      ensures var child := Child(radius, agar.celdas, pos, order);
        (placeFound <==> child.Some?) && (placeFound ==> neu == child.value)
    {
      var k := 0;
      placeFound := false;
      neu := pos;
      while k < |order| && !placeFound
        invariant 0 <= k <= |order|
        invariant !placeFound ==> FirstFree(radius, agar.celdas, pos, order, 0) == FirstFree(radius, agar.celdas, pos, order, k)
        invariant placeFound ==> FirstFree(radius, agar.celdas, pos, order, 0) == Some(k - 1) &&
                                 neu == Posicion(pos.x + order[k - 1].dx, pos.y + order[k - 1].dy) &&
                                 IsInDish(radius, neu) && 0 <= neu.x < maxX && 0 <= neu.y < maxY &&
                                 agar.celdas[neu.x][neu.y].idMo == Vacio
      {
        neu := Posicion(pos.x + order[k].dx, pos.y + order[k].dy);
        if IsInDish(radius, neu) {
          InDishInGrid(radius, neu);
          if agar.celdas[neu.x][neu.y].idMo == Vacio {
            placeFound := true;
          }
        }
        k := k + 1;
      }
    }

    /** The feeding of an agent's turn in `move_colonies`: the agent at
        (x, y) gains 1% of the nutrients under it, read through the drift
        offset, which lose them (never going below 0), and pays E_VIVIR. */
    method Feed(x: nat, y: nat)
      requires Inv() && x < maxX && y < maxY
      modifies agar
      ensures Inv()
      ensures agar.rx == old(agar.rx) && agar.ry == old(agar.ry) && agar.distN == old(agar.distN)
      ensures agar.celdas == FedCells(old(agar.celdas), maxX, maxY, x, y, (x + agar.rx) % maxX, (y + agar.ry) % maxY)
    {
      var xr := (x + agar.rx) % maxX;
      var yr := (y + agar.ry) % maxY;
      var cells: seq<seq<Celda>> := agar.celdas;
      var nutrientConsumption := 0.01 * cells[xr][yr].nutrientes;
      cells := Set2(cells, x, y, cells[x][y].(energiaMo := cells[x][y].energiaMo + nutrientConsumption));
      cells := Set2(cells, xr, yr, cells[xr][yr].(nutrientes := cells[xr][yr].nutrientes - nutrientConsumption));
      if cells[xr][yr].nutrientes < 0.0 {
        cells := Set2(cells, xr, yr, cells[xr][yr].(nutrientes := 0.0));
      }
      cells := Set2(cells, x, y, cells[x][y].(energiaMo := cells[x][y].energiaMo - EVivir));
      assert cells == FedCells(agar.celdas, maxX, maxY, x, y, xr, yr);
      FedCellsSpec(agar.celdas, maxX, maxY, x, y, xr, yr);
      SetCells(cells);
    }

    /** Storing a field with the same ids keeps every colony mirrored. */
    method SetCells(cells: seq<seq<Celda>>)
      requires Inv() && IsGrid(cells, maxX, maxY)
      requires forall i, j :: 0 <= i < maxX && 0 <= j < maxY ==> cells[i][j].idMo == agar.celdas[i][j].idMo
      modifies agar
      ensures Inv() && agar.celdas == cells
      ensures agar.rx == old(agar.rx) && agar.ry == old(agar.ry) && agar.distN == old(agar.distN)
    {
      ghost var g: seq<seq<Celda>> := agar.celdas;
      agar.celdas := cells;
      forall k | 0 <= k < |colonies|
        ensures ColonyOk(colonies[k], k + 1, agar.celdas)
      {
        MirrorsIds(g, agar.celdas, colonies[k].myMos, k + 1, maxX, maxY);
      }
    }

    /** The first part of the turn of the agent at (x, y) in `move_colonies`:
        it feeds and pays E_VIVIR, its colony lets it live, it pays E_MOVERSE
        when its cached movement is not (0, 0), and it is killed when its
        energy is no longer positive. `raised` is the AttributeError the
        colony raises for an agent on the Spanish base; the tick stops there. */
    method Metabolise(x: nat, y: nat) returns (raised: bool, moved: bool)
      requires Valid() && x < maxX && y < maxY && agar.celdas[x][y].idMo != Vacio
      modifies agar, Cols(), colonies[agar.celdas[x][y].idMo - 1].Repr
      ensures Inv()
      ensures forall c :: 0 <= c < |colonies| ==> colonies[c].Repr == old(colonies[c].Repr)
      ensures agar.rx == old(agar.rx) && agar.ry == old(agar.ry) && agar.distN == old(agar.distN)
      ensures raised <==> BaseOf(colonies[old(agar.celdas[x][y].idMo) - 1].kind) == Spanish
      ensures !raised ==> Valid()
      ensures !raised ==>
        agar.celdas == Metabolised(old(agar.celdas), maxX, maxY, x, y, (x + agar.rx) % maxX, (y + agar.ry) % maxY, moved)
      ensures !raised && agar.celdas[x][y].idMo != Vacio ==> moved == colonies[old(agar.celdas[x][y].idMo) - 1].Moved(x, y)
      ensures var f := FedCells(old(agar.celdas), maxX, maxY, x, y, (x + agar.rx) % maxX, (y + agar.ry) % maxY);
        var col := colonies[old(agar.celdas[x][y].idMo) - 1];
        var mov := Microorg.Choice(col.kind, f, maxX, maxY, agar.rx, agar.ry, Posicion(x, y));
        (raised ==> agar.celdas == f) &&
        (!raised ==> moved == (mov != Movimiento(0, 0))) &&
        (!raised && agar.celdas[x][y].idMo != Vacio ==>
           agar.celdas[x][y].idMo == old(agar.celdas[x][y].idMo) && col.Mov(x, y) == mov && col.Duplicate(x, y) == (col.kind == MOyy && f[x][y].energiaMo > 500.0))
    {
      ghost var g: seq<seq<Celda>> := agar.celdas;
      ghost var xr, yr := (x + agar.rx) % maxX, (y + agar.ry) % maxY;
      raised, moved := FeedAndLive(x, y);
      if raised {
        return;
      }
      ghost var p: seq<seq<Celda>> := agar.celdas;
      assert CellsOk(Metabolised(g, maxX, maxY, x, y, xr, yr, moved), maxX, maxY) &&
             p[x][y].energiaMo == MetabolicEnergy(g, maxX, maxY, x, y, xr, yr, moved) &&
             Metabolised(g, maxX, maxY, x, y, xr, yr, moved) ==
               if p[x][y].energiaMo <= 0.0 then Set2(p, x, y, p[x][y].(idMo := Vacio, energiaMo := 0.0)) else p by {
        MetabolisedSteps(g, FedCells(g, maxX, maxY, x, y, xr, yr), p, maxX, maxY, x, y, xr, yr, moved);
        MetabolisedSpec(g, maxX, maxY, x, y, xr, yr, moved);
      }
      if agar.celdas[x][y].energiaMo <= 0.0 {
        KillMo(Posicion(x, y));
      }
    }

    /** Feeding, then the colony's `live` and E_MOVERSE: the field is
        FedCells less E_MOVERSE at (x, y) when the agent moved. */
    method FeedAndLive(x: nat, y: nat) returns (raised: bool, moved: bool)
      requires Inv() && x < maxX && y < maxY && 1 <= agar.celdas[x][y].idMo <= NCol
      modifies agar, Cols(), colonies[agar.celdas[x][y].idMo - 1].Repr
      ensures Inv()
      ensures forall c :: 0 <= c < |colonies| ==> colonies[c].Repr == old(colonies[c].Repr)
      ensures forall c :: 0 <= c < |colonies| ==> colonies[c].myMos == old(colonies[c].myMos)
      ensures agar.rx == old(agar.rx) && agar.ry == old(agar.ry) && agar.distN == old(agar.distN)
      ensures raised <==> BaseOf(colonies[old(agar.celdas[x][y].idMo) - 1].kind) == Spanish
      ensures !raised ==> moved == colonies[old(agar.celdas[x][y].idMo) - 1].Moved(x, y)
      ensures var f := FedCells(old(agar.celdas), maxX, maxY, x, y, (x + agar.rx) % maxX, (y + agar.ry) % maxY);
        if raised then agar.celdas == f
        else
          var col := colonies[old(agar.celdas[x][y].idMo) - 1];
          agar.celdas == Paid(f, x, y, moved) &&
          col.Mov(x, y) == Microorg.Choice(col.kind, f, maxX, maxY, agar.rx, agar.ry, Posicion(x, y)) &&
          col.Duplicate(x, y) == (col.kind == MOyy && f[x][y].energiaMo > 500.0)
    {
      ghost var g: seq<seq<Celda>> := agar.celdas;
      ghost var f: seq<seq<Celda>> := FedCells(g, maxX, maxY, x, y, (x + agar.rx) % maxX, (y + agar.ry) % maxY);
      Feed(x, y);
      assert agar.celdas == f;
      assert f[x][y].idMo == g[x][y].idMo by {
        FedCellsSpec(g, maxX, maxY, x, y, (x + agar.rx) % maxX, (y + agar.ry) % maxY);
      }
      raised, moved := LiveAndPay(x, y);
    }

    /** The colony's `live(x, y)` for the agent at (x, y), then E_MOVERSE
        when the movement it cached is not (0, 0). */
    method LiveAndPay(x: nat, y: nat) returns (raised: bool, moved: bool)
      requires Inv() && x < maxX && y < maxY && 1 <= agar.celdas[x][y].idMo <= NCol
      modifies agar, Cols(), colonies[agar.celdas[x][y].idMo - 1].Repr
      ensures Inv()
      ensures forall c :: 0 <= c < |colonies| ==> colonies[c].Repr == old(colonies[c].Repr)
      ensures forall c :: 0 <= c < |colonies| ==> colonies[c].myMos == old(colonies[c].myMos)
      ensures agar.rx == old(agar.rx) && agar.ry == old(agar.ry) && agar.distN == old(agar.distN)
      ensures raised <==> BaseOf(colonies[old(agar.celdas[x][y].idMo) - 1].kind) == Spanish
      ensures raised ==> agar.celdas == old(agar.celdas)
      ensures !raised ==> moved == colonies[old(agar.celdas[x][y].idMo) - 1].Moved(x, y)
      ensures !raised ==> agar.celdas == Paid(old(agar.celdas), x, y, moved)
      ensures !raised ==> var col := colonies[old(agar.celdas[x][y].idMo) - 1];
        col.Mov(x, y) == Microorg.Choice(col.kind, old(agar.celdas), maxX, maxY, agar.rx, agar.ry, Posicion(x, y)) &&
        col.Duplicate(x, y) == (col.kind == MOyy && old(agar.celdas[x][y].energiaMo) > 500.0)
    {
      raised := LiveOnly(x, y);
      if raised {
        moved := false;
        return;
      }
      moved := colonies[agar.celdas[x][y].idMo - 1].Moved(x, y);
      if moved {
        SetEnergy(x, y, agar.celdas[x][y].energiaMo - EMoverse);
      }
    }

    /** The colony's `live(x, y)` for the agent at (x, y): the field and
        every colony's agents stay; only the colony's cached decision for
        that cell changes. */
    method LiveOnly(x: nat, y: nat) returns (raised: bool)
      requires Inv() && x < maxX && y < maxY && 1 <= agar.celdas[x][y].idMo <= NCol
      modifies Cols(), colonies[agar.celdas[x][y].idMo - 1].Repr
      ensures Inv()
      ensures forall c :: 0 <= c < |colonies| ==> colonies[c].Repr == old(colonies[c].Repr)
      ensures forall c :: 0 <= c < |colonies| ==> colonies[c].myMos == old(colonies[c].myMos)
      ensures raised <==> BaseOf(colonies[agar.celdas[x][y].idMo - 1].kind) == Spanish
      ensures !raised ==> var col := colonies[agar.celdas[x][y].idMo - 1];
        col.Mov(x, y) == Microorg.Choice(col.kind, agar.celdas, maxX, maxY, agar.rx, agar.ry, Posicion(x, y)) &&
        col.Duplicate(x, y) == (col.kind == MOyy && agar.celdas[x][y].energiaMo > 500.0)
    {
      var c := agar.celdas[x][y].idMo - 1;
      // `c < len(colonies)` always holds: ids stay in 0..N_COL
      var col := colonies[c];
      col.LiveSlotOnGrid(x, y);
      raised := col.Live(agar, x, y);
      InGridReads(agar, x, y);
      forall k | 0 <= k < |colonies|
        ensures ColonyOk(colonies[k], k + 1, agar.celdas)
        ensures colonies[k].Repr == old(colonies[k].Repr) && colonies[k].myMos == old(colonies[k].myMos)
      {
      }
    }

    /** Overwrites the energy of the agent at (x, y) with e; ids, nutrients
        and every colony stay as they are. */
    method SetEnergy(x: nat, y: nat, e: real)
      requires Inv() && x < maxX && y < maxY
      modifies agar
      ensures Inv()
      ensures agar.rx == old(agar.rx) && agar.ry == old(agar.ry) && agar.distN == old(agar.distN)
      ensures agar.celdas == Set2(old(agar.celdas), x, y, old(agar.celdas[x][y]).(energiaMo := e))
    {
      ghost var g: seq<seq<Celda>> := agar.celdas;
      agar.celdas := Set2(agar.celdas, x, y, agar.celdas[x][y].(energiaMo := e));
      IsGridSet(g, maxX, maxY, x, y, agar.celdas[x][y]);
      forall k | 0 <= k < |colonies|
        ensures ColonyOk(colonies[k], k + 1, agar.celdas)
      {
        MirrorsKeep(g, colonies[k].myMos, k + 1, maxX, maxY, x, y, agar.celdas[x][y]);
      }
    }

    /** The sowing loop of `__init__` for colony c + 1: draws are taken in
        order while fewer than MOS_INICIAL of its agents are placed; a draw
        inside the dish on an empty cell creates an agent with E_INICIAL
        (CreateMo). `used` is the number of draws taken. */
    method Seed(c: nat, draws: seq<Posicion>) returns (used: nat)
      requires Valid() && c < NCol
      modifies agar, Cols()
      ensures Valid() && agar.rx == old(agar.rx) && agar.ry == old(agar.ry) && agar.distN == old(agar.distN)
      ensures var res := Seeded(radius, old(agar.celdas), draws, c + 1, MosInicial);
                agar.celdas == res.0 && used == res.1
    {
      ghost var res := Seeded(radius, agar.celdas, draws, c + 1, MosInicial);
      var mo: nat := 0;
      used := 0;
      while mo < MosInicial && used < |draws|
        invariant Valid() && mo <= MosInicial && used <= |draws|
        invariant agar.rx == old(agar.rx) && agar.ry == old(agar.ry) && agar.distN == old(agar.distN)
        invariant var s := Seeded(radius, agar.celdas, draws[used..], c + 1, MosInicial - mo);
                    s.0 == res.0 && used + s.1 == res.1
      {
        assert draws[used..][1..] == draws[used + 1..];
        ghost var g: seq<seq<Celda>>, m0 := agar.celdas, mo;
        var placed := Draw(draws[used], c + 1);
        if placed {
          mo := mo + 1;
        }
        SeededStep(radius, g, draws[used..], c + 1, MosInicial - m0);
        used := used + 1;
      }
    }

    /** One draw of the sowing for colony id: when it lands inside the
        dish on an empty cell, `create_mo` puts an agent with E_INICIAL
        there (`placed`); otherwise nothing happens. */
    method Draw(pos: Posicion, id: int) returns (placed: bool)
      requires Valid() && 1 <= id <= NCol
      modifies agar, Cols()
      ensures Valid() && agar.rx == old(agar.rx) && agar.ry == old(agar.ry) && agar.distN == old(agar.distN)
      ensures placed == Free(radius, old(agar.celdas), pos)
      ensures agar.celdas == if placed then Set2(old(agar.celdas), pos.x, pos.y,
                                                 old(agar.celdas[pos.x][pos.y]).(idMo := id, energiaMo := EInicial))
                             else old(agar.celdas)
    {
      placed := Free(radius, agar.celdas, pos);
      if placed {
        ghost var g: seq<seq<Celda>> := agar.celdas;
        CreateMo(pos, id, EInicial);
        CellsOkSet(g, maxX, maxY, pos.x, pos.y, g[pos.x][pos.y].(idMo := id, energiaMo := EInicial));
      }
    }

    /** The sowing of `__init__`: colony 1 first, then colony 2 from the
        draws colony 1 left. */
    method SeedAll(draws: seq<Posicion>)
      requires Valid()
      modifies agar, Cols()
      ensures Valid() && agar.rx == old(agar.rx) && agar.ry == old(agar.ry) && agar.distN == old(agar.distN)
      ensures agar.celdas == SeedColonies(radius, old(agar.celdas), draws, NCol).0
    {
      var rest := draws;
      for c := 0 to NCol
        invariant Valid() && agar.rx == old(agar.rx) && agar.ry == old(agar.ry) && agar.distN == old(agar.distN)
        invariant var s := SeedColonies(radius, old(agar.celdas), draws, c);
                    agar.celdas == s.0 && rest == draws[s.1..]
      {
        ghost var before := SeedColonies(radius, old(agar.celdas), draws, c);
        var used := Seed(c, rest);
        assert draws[before.1..][used..] == draws[before.1 + used..];
        rest := rest[used..];
      }
    }

    /** The nutrient loop of `__init__`: every cell gets the value of
        `calculate_nutrients` under `dist`, ids and energies stay, and
        `total` is `total_nutri`, the sum of what was put. */
    method Fertilise(dist: int, gauss: (int, int) -> real) returns (total: real)
      requires Valid() && (dist == 4 ==> maxX >= 4)
      requires forall i, j :: 0 <= i < maxX && 0 <= j < maxY ==> gauss(i, j) >= 0.0
      modifies agar`celdas
      ensures Valid() && IsGrid(agar.celdas, maxX, maxY)
      ensures forall i, j :: 0 <= i < maxX && 0 <= j < maxY ==>
                agar.celdas[i][j] == Fertile(old(agar.celdas), maxX, maxY, i, j, dist, gauss)
      ensures total == FieldTotal(maxX, maxY, maxX, dist, gauss)
    {
      ghost var g: seq<seq<Celda>> := agar.celdas;
      total := 0.0;
      for x := 0 to maxX
        invariant IsGrid(agar.celdas, maxX, maxY)
        invariant forall i, j :: 0 <= i < maxX && 0 <= j < maxY ==>
                    agar.celdas[i][j] == if i < x then Fertile(g, maxX, maxY, i, j, dist, gauss) else g[i][j]
        invariant total == FieldTotal(maxX, maxY, x, dist, gauss)
      {
        var sum := FertiliseRow(x, g, dist, gauss);
        total := total + sum;
      }
      FertileOk(g, agar.celdas, maxX, maxY, dist, gauss);
      forall c | 0 <= c < |colonies|
        ensures ColonyOk(colonies[c], c + 1, agar.celdas)
      {
        MirrorsIds(g, agar.celdas, colonies[c].myMos, c + 1, maxX, maxY);
      }
    }

    /** Row x of the nutrient loop, the rows before it done already;
        `sum` is what the row adds to `total_nutri`. */
    method FertiliseRow(x: nat, ghost g: seq<seq<Celda>>, dist: int, gauss: (int, int) -> real) returns (sum: real)
      requires x < maxX && (dist == 4 ==> maxX >= 4) && IsGrid(g, maxX, maxY) && IsGrid(agar.celdas, maxX, maxY)
      requires forall i, j :: 0 <= i < maxX && 0 <= j < maxY ==>
                 agar.celdas[i][j] == if i < x then Fertile(g, maxX, maxY, i, j, dist, gauss) else g[i][j]
      modifies agar`celdas
      ensures IsGrid(agar.celdas, maxX, maxY)
      ensures forall i, j :: 0 <= i < maxX && 0 <= j < maxY ==>
                agar.celdas[i][j] == if i <= x then Fertile(g, maxX, maxY, i, j, dist, gauss) else g[i][j]
      ensures sum == RowTotal(maxX, maxY, x, maxY, dist, gauss)
    {
      sum := 0.0;
      for y := 0 to maxY
        invariant IsGrid(agar.celdas, maxX, maxY)
        invariant forall i, j :: 0 <= i < maxX && 0 <= j < maxY ==>
                    agar.celdas[i][j] == if i < x || (i == x && j < y) then Fertile(g, maxX, maxY, i, j, dist, gauss) else g[i][j]
        invariant sum == RowTotal(maxX, maxY, x, y, dist, gauss)
      {
        var v := Nutrients(maxX, maxY, x, y, dist, gauss(x, y)).value;
        IsGridSet(agar.celdas, maxX, maxY, x, y, agar.celdas[x][y].(nutrientes := v));
        agar.celdas := Set2(agar.celdas, x, y, agar.celdas[x][y].(nutrientes := v));
        sum := sum + v;
      }
    }

    /** The turn of the agent the snapshot recorded at (x, y): nothing when
        the cell has emptied since; otherwise it feeds, lives and pays
        (Metabolise), an agent left without energy is removed and does
        nothing else, and a survivor first divides when it asked to, then
        follows its cached movement (CanMove): into an empty target
        (MoveMo), against an agent of another colony (Compite), and not at
        all onto its own colony. `moved` is whether the movement it cached is
        not (0, 0). */
    method Turn(x: nat, y: nat, order: seq<Movimiento>, up: bool) returns (raised: bool, moved: bool)
      requires Valid() && x < maxX && y < maxY
      modifies agar, Cols(), Agents()
      ensures Inv() && (!raised ==> Valid())
      ensures forall c :: 0 <= c < |colonies| ==>
                old(colonies[c].Repr) <= colonies[c].Repr && fresh(colonies[c].Repr - old(colonies[c].Repr))
      ensures agar.rx == old(agar.rx) && agar.ry == old(agar.ry) && agar.distN == old(agar.distN)
      ensures old(agar.celdas[x][y].idMo) == Vacio ==>
                forall c :: 0 <= c < |colonies| ==> colonies[c].myMos == old(colonies[c].myMos)
      ensures (agar.celdas, raised) == TurnOutcome(old(agar.celdas), radius, Kinds(), agar.rx, agar.ry, Posicion(x, y), order, up)
    {
      if agar.celdas[x][y].idMo == Vacio {
        return false, false;
      }
      assert colonies[agar.celdas[x][y].idMo - 1].Repr <= Agents();
      ghost var g: seq<seq<Celda>> := agar.celdas;
      ghost var k := colonies[g[x][y].idMo - 1].kind;
      assert Kinds()[g[x][y].idMo - 1] == k && maxX == 2 * radius && maxY == 2 * radius;
      raised, moved := Occupied(x, y, order, up);
      assert (agar.celdas, raised) == Turned(g, radius, k, agar.rx, agar.ry, Posicion(x, y), order, up);
    }

    /** The turn of an agent that is still on (x, y): Metabolise, then, for
        a survivor without error, Act. */
    method Occupied(x: nat, y: nat, order: seq<Movimiento>, up: bool) returns (raised: bool, moved: bool)
      requires Valid() && x < maxX && y < maxY && agar.celdas[x][y].idMo != Vacio
      modifies agar, Cols(), colonies[agar.celdas[x][y].idMo - 1].Repr
      ensures Inv() && (!raised ==> Valid())
      ensures forall c :: 0 <= c < |colonies| ==>
                old(colonies[c].Repr) <= colonies[c].Repr && fresh(colonies[c].Repr - old(colonies[c].Repr))
      ensures agar.rx == old(agar.rx) && agar.ry == old(agar.ry) && agar.distN == old(agar.distN)
      ensures raised <==> BaseOf(colonies[old(agar.celdas[x][y].idMo) - 1].kind) == Spanish
      ensures var xr, yr := (x + agar.rx) % maxX, (y + agar.ry) % maxY;
        var f := FedCells(old(agar.celdas), maxX, maxY, x, y, xr, yr);
        var k := colonies[old(agar.celdas[x][y].idMo) - 1].kind;
        var mov := Microorg.Choice(k, f, maxX, maxY, agar.rx, agar.ry, Posicion(x, y));
        var m := Metabolised(old(agar.celdas), maxX, maxY, x, y, xr, yr, mov != Movimiento(0, 0));
        if raised then agar.celdas == f
        else if m[x][y].idMo == Vacio then agar.celdas == m
        else agar.celdas == Acted(m, radius, Posicion(x, y), k == MOyy && f[x][y].energiaMo > 500.0, mov, order, up)
    {
      ghost var col := colonies[agar.celdas[x][y].idMo - 1];
      raised, moved := Metabolise(x, y);
      if raised || agar.celdas[x][y].idMo == Vacio {
        return;
      }
      ghost var m := agar.celdas;
      ghost var dup, mov := col.Duplicate(x, y), col.Mov(x, y);
      Act(x, y, order, up);
      assert agar.celdas == Acted(m, radius, Posicion(x, y), dup, mov, order, up);
    }

    /** The rest of the turn of a surviving agent at (x, y): it divides
        when its colony cached the wish to, then follows its cached
        movement. Only ids and energies change. */
    method Act(x: nat, y: nat, order: seq<Movimiento>, up: bool)
      requires Valid() && x < maxX && y < maxY && agar.celdas[x][y].idMo != Vacio
      modifies agar, Cols()
      ensures Valid() && SameNutrients(old(agar.celdas), agar.celdas, maxX, maxY)
      ensures forall c :: 0 <= c < |colonies| ==>
                old(colonies[c].Repr) <= colonies[c].Repr && fresh(colonies[c].Repr - old(colonies[c].Repr))
      ensures agar.rx == old(agar.rx) && agar.ry == old(agar.ry) && agar.distN == old(agar.distN)
      ensures var col := old(colonies[agar.celdas[x][y].idMo - 1]);
        agar.celdas == Acted(old(agar.celdas), radius, Posicion(x, y), old(col.Duplicate(x, y)), old(col.Mov(x, y)), order, up)
    {
      var col := colonies[agar.celdas[x][y].idMo - 1];
      ghost var g: seq<seq<Celda>> := agar.celdas;
      if col.Duplicate(x, y) {
        Mitosis(Posicion(x, y), order);
      }
      ghost var f: seq<seq<Celda>> := agar.celdas;
      Follow(x, y, col, up);
      SameNutrientsTrans(g, f, agar.celdas, maxX, maxY);
    }

    /** The movement of a turn: when the colony's cached movement at (x, y)
        is not (0, 0) and CanMove accepts it, the agent goes to an empty
        target, fights an agent of another colony there, or stays when the
        target holds its own colony. */
    method Follow(x: nat, y: nat, col: Colonia.Colonia, up: bool)
      requires Valid() && x < maxX && y < maxY && agar.celdas[x][y].idMo != Vacio
      requires col == colonies[agar.celdas[x][y].idMo - 1]
      modifies agar, Cols()
      ensures Valid() && SameNutrients(old(agar.celdas), agar.celdas, maxX, maxY)
      ensures forall c :: 0 <= c < |colonies| ==> colonies[c].Repr == old(colonies[c].Repr)
      ensures agar.rx == old(agar.rx) && agar.ry == old(agar.ry) && agar.distN == old(agar.distN)
      ensures agar.celdas == Followed(old(agar.celdas), radius, Posicion(x, y), old(col.Mov(x, y)), up)
    {
      var idMo := agar.celdas[x][y].idMo;
      var here := Posicion(x, y);
      if col.Moved(x, y) {
        var ok, neu := CanMove(here, col.Mov(x, y));
        if ok {
          if agar.celdas[neu.x][neu.y].idMo == Vacio {
            MoveMo(here, neu);
          } else if agar.celdas[neu.x][neu.y].idMo != idMo {
            Compite(here, neu, up);
          }
        }
      }
    }

    /** The snapshot of a tick: the positions of the occupied cells, row by
        row. */
    method SnapshotAlives()
      requires Valid()
      modifies this`alives
      ensures Valid() && alives == Snapshot(agar.celdas, maxX)
    {
      alives := [];
      for x := 0 to maxX
        invariant alives == Snapshot(agar.celdas, x)
      {
        for y := 0 to maxY
          invariant alives == Snapshot(agar.celdas, x) + SnapRow(agar.celdas, x, y)
        {
          if agar.celdas[x][y].idMo != Vacio {
            alives := alives + [Posicion(x, y)];
          }
        }
      }
      assert forall c :: 0 <= c < |colonies| ==> colonies[c].myMos == old(colonies[c].myMos);
    }

    /** The drift of the nutrients at the end of a tick: on ticks with
        t % 10 < 5 the read offset moves by (dx, dy), which is first redrawn
        when t % 6 == 0 as well. The offset is never reduced modulo the
        size. */
    method Drift(redraw: (int, int))
      requires Valid()
      modifies this`dx, this`dy, agar`rx, agar`ry
      ensures Valid() && agar.celdas == old(agar.celdas) && agar.distN == old(agar.distN)
      ensures (dx, dy) == DriftDirection(t, (old(dx), old(dy)), redraw)
      ensures (agar.rx, agar.ry) == DriftOffset(t, (old(agar.rx), old(agar.ry)), (dx, dy))
    {
      if t % 10 < 5 {
        if t % 6 == 0 {
          dx, dy := redraw.0, redraw.1;
        }
        agar.rx := agar.rx + dx;
        agar.ry := agar.ry + dy;
      }
      assert forall c :: 0 <= c < |colonies| ==> colonies[c].myMos == old(colonies[c].myMos);
    }

    /** `move_colonies`: advances the clock, records the snapshot, gives a
        turn to the agents in the order the shuffle draws, skipping draws
        outside the snapshot, and lets the nutrients drift. An AttributeError
        raised by a colony's `live` (`raised`) leaves the tick where it
        stands, without drift. Every turn keeps Valid: the colonies mirror
        the field, so their counters count its cells (ColonyCounts); no
        occupied cell is left without energy and no nutrient is negative. */
    method MoveColonies(d: TickDraws) returns (raised: bool)
      requires Valid() && |d.orders| == |d.shuffle| && |d.ups| == |d.shuffle|
      modifies this, agar, Cols(), Agents()
      ensures Inv() && (!raised ==> Valid())
      ensures forall c :: 0 <= c < |colonies| ==>
                old(colonies[c].Repr) <= colonies[c].Repr && fresh(colonies[c].Repr - old(colonies[c].Repr))
      ensures t == old(t) + 1 && alives == Snapshot(old(agar.celdas), maxX) && agar.distN == old(agar.distN)
      ensures forall p :: p in alives ==> 0 <= p.x < maxX && 0 <= p.y < maxY
      ensures (agar.celdas, raised) ==
        TurnsOutcome(old(agar.celdas), radius, Kinds(), old(agar.rx), old(agar.ry), alives, d, Min(|alives|, |d.shuffle|))
      ensures raised ==> (dx, dy) == (old(dx), old(dy)) && (agar.rx, agar.ry) == (old(agar.rx), old(agar.ry))
      ensures !raised ==> (dx, dy) == DriftDirection(t, (old(dx), old(dy)), d.drift)
      ensures !raised ==> (agar.rx, agar.ry) == DriftOffset(t, (old(agar.rx), old(agar.ry)), (dx, dy))
    {
      t := t + 1;
      SnapshotAlives();
      forall p | p in alives
        ensures 0 <= p.x < maxX && 0 <= p.y < maxY
      {
        SnapshotSpec(agar.celdas, maxX, p);
      }
      raised := Turns(d);
      if !raised {
        Drift(d.drift);
      }
    }

    /** The turns of a tick: the m-th draw of the shuffle, while m is below
        the snapshot's size, picks the snapshot position whose agent takes
        its turn (Turn); draws outside the snapshot are skipped, and an
        AttributeError ends the tick at once. */
    method Turns(d: TickDraws) returns (raised: bool)
      requires Valid() && |d.orders| == |d.shuffle| && |d.ups| == |d.shuffle|
      requires forall p :: p in alives ==> 0 <= p.x < maxX && 0 <= p.y < maxY
      modifies agar, Cols(), Agents()
      ensures Inv() && (!raised ==> Valid())
      ensures forall c :: 0 <= c < |colonies| ==>
                old(colonies[c].Repr) <= colonies[c].Repr && fresh(colonies[c].Repr - old(colonies[c].Repr))
      ensures (agar.rx, agar.ry, agar.distN) == (old(agar.rx), old(agar.ry), old(agar.distN))
      ensures TickAt(agar.celdas, raised, old(agar.celdas), radius, Kinds(), agar.rx, agar.ry, alives, d, Min(|alives|, |d.shuffle|))
    {
      ghost var g: seq<seq<Celda>> := agar.celdas;
      var n := Min(|alives|, |d.shuffle|);
      var m := 0;
      while m < n
        invariant 0 <= m <= n && Valid()
        invariant forall c :: 0 <= c < |colonies| ==>
                    old(colonies[c].Repr) <= colonies[c].Repr && fresh(colonies[c].Repr - old(colonies[c].Repr))
        invariant (agar.rx, agar.ry, agar.distN) == (old(agar.rx), old(agar.ry), old(agar.distN))
        invariant TickAt(agar.celdas, false, g, radius, Kinds(), agar.rx, agar.ry, alives, d, m)
      {
        raised := NthTurn(d, m, g, n);
        if raised {
          return;
        }
        m := m + 1;
      }
      raised := false;
    }

    /** The m-th draw of a tick, after the first m left g as TurnsOutcome
        says: the snapshot position it picks takes its Turn, and a draw
        outside the snapshot is skipped. */
    method NthTurn(d: TickDraws, m: nat, ghost g: seq<seq<Celda>>, ghost n: nat) returns (raised: bool)
      requires Valid() && m < n <= |d.shuffle| && |d.orders| == |d.shuffle| && |d.ups| == |d.shuffle|
      requires forall p :: p in alives ==> 0 <= p.x < maxX && 0 <= p.y < maxY
      requires IsGrid(g, maxX, maxY)
      requires TickAt(agar.celdas, false, g, radius, Kinds(), agar.rx, agar.ry, alives, d, m)
      modifies agar, Cols(), Agents()
      ensures Inv() && (!raised ==> Valid())
      ensures forall c :: 0 <= c < |colonies| ==>
                old(colonies[c].Repr) <= colonies[c].Repr && fresh(colonies[c].Repr - old(colonies[c].Repr))
      ensures (agar.rx, agar.ry, agar.distN) == (old(agar.rx), old(agar.ry), old(agar.distN))
      ensures TickAt(agar.celdas, raised, g, radius, Kinds(), agar.rx, agar.ry, alives, d, m + 1)
      ensures raised ==> TickAt(agar.celdas, raised, g, radius, Kinds(), agar.rx, agar.ry, alives, d, n)
    {
      var rm := d.shuffle[m];
      raised := false;
      if 0 <= rm < |alives| {
        assert alives[rm] in alives;
        var moved;
        raised, moved := Turn(alives[rm].x, alives[rm].y, d.orders[m], d.ups[m]);
        if raised {
          RaisedSticks(g, radius, Kinds(), agar.rx, agar.ry, alives, d, m + 1, n);
        }
      }
    }
  }
}

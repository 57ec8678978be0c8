/** The pure rules of the Petri dish (lib/petri.py): which positions lie in
    the dish, the six nutrient distributions, the snapshot of living agents
    a tick traverses, the neighbour a dividing agent takes, and the energy
    arithmetic of division and combat. */
module Dish {
  import opened Py
  import opened Defs
  import opened Agar

  /** `is_in_dish`: strictly inside the circle of radius r centred at (r, r). */
  predicate IsInDish(r: int, p: Posicion)
  {
    (r - p.x) * (r - p.x) + (r - p.y) * (r - p.y) < r * r
  }

  lemma SquareMono(a: int, b: int)
    requires 0 <= b <= a
    ensures b * b <= a * a
  {
    assert a * a - b * b == (a - b) * (a + b);
  }

  /** A coordinate whose square distance to r is below r * r lies strictly
      between 0 and 2r. */
  lemma StrictlyInside(r: nat, c: int)
    requires (r - c) * (r - c) < r * r
    ensures 0 < c < 2 * r
  {
    if c <= 0 {
      SquareMono(r - c, r);
    } else if c >= 2 * r {
      SquareMono(c - r, r);
    }
  }

  /** Every position in the dish is a cell of the 2r by 2r grid, away from
      its first row and column. */
  lemma InDishInGrid(r: nat, p: Posicion)
    requires IsInDish(r, p)
    ensures 0 < p.x < 2 * r && 0 < p.y < 2 * r
  {
    var a, b := (r - p.x) * (r - p.x), (r - p.y) * (r - p.y);
    SquareMono(if r - p.x < 0 then p.x - r else r - p.x, 0);
    SquareMono(if r - p.y < 0 then p.y - r else r - p.y, 0);
    assert a >= 0 && b >= 0 by {
      assert (p.x - r) * (p.x - r) == a && (p.y - r) * (p.y - r) == b;
    }
    assert a < r * r && b < r * r;
    StrictlyInside(r, p.x);
    StrictlyInside(r, p.y);
  }

  /** The centre is in the dish of any positive radius and the corner (0, 0)
      is never in it. */
  lemma CentreAndCorner(r: nat)
    ensures IsInDish(r, Posicion(r, r)) <==> r > 0
    ensures !IsInDish(r, Posicion(0, 0))
  {
  }

  /** The unit step `can_move` takes along one axis. */
  function Sign(d: int): (s: int)
    ensures s == 0 <==> d == 0
    ensures s > 0 <==> d > 0
    ensures -1 <= s <= 1
  {
    if d > 0 then 1 else if d < 0 then -1 else 0
  }

  /** The nutrients `calculate_nutrients` puts at (x, y) of a w by h grid
      under distribution `dist`. `gauss` stands for the value of the two
      gaussians of distribution 5 at (x, y). None is the ZeroDivisionError of
      the lattice on a grid narrower than 4. */
  function Nutrients(w: nat, h: nat, x: int, y: int, dist: int, gauss: real): (r: Option<real>)
    requires 0 <= x < w && 0 <= y < h
    ensures r.None? <==> dist == 4 && w < 4
  {
    if dist == 1 then
      Some(MaxNutri * ((w - x) as real) * ((h - y) as real) / ((w * h) as real) / 2.875)
    else if dist == 2 then
      Some(if w / 2 - 5 < x < w / 2 + 5 then MaxNutri / 4.2 else 0.0)
    else if dist == 3 then
      var cx := 0.5 * (w as real);
      var cy := 0.5 * (h as real);
      var d2 := (x as real - cx) * (x as real - cx) + (y as real - cy) * (y as real - cy);
      Some(if 40.0 < d2 < 115.0 then MaxNutri / 1.008 else 0.0)
    else if dist == 4 then
      if w / 4 == 0 then None
      else if (x + y) % (w / 4) <= 1 || (y - x) % (w / 3) <= 1 then
        Some(MaxNutri * ((w - x) as real) * ((h - y) as real) / ((w * h) as real) * 1.277)
      else Some(0.0)
    else if dist == 5 then
      Some(gauss)
    else if dist == 6 then
      Some(MaxNutri / 11.062)
    else
      Some(0.0)
  }

  /** The share (w - x)(h - y) / (w h) of the two sloped distributions lies
      in (0, 1]. */
  lemma SlopeShare(w: nat, h: nat, x: int, y: int)
    requires 0 <= x < w && 0 <= y < h
    ensures 0.0 < ((w - x) as real) * ((h - y) as real) / ((w * h) as real) <= 1.0
  {
    var a, b := (w - x) as real, (h - y) as real;
    var W, H := w as real, h as real;
    assert 0.0 < a <= W && 0.0 < b <= H;
    assert a * b <= W * b <= W * H;
    assert (w * h) as real == W * H;
  }

  /** Every distribution but the gaussians puts between 0 and 1.277 times
      the relative maximum on each cell; the gaussians put `gauss`. */
  lemma NutrientsBounds(w: nat, h: nat, x: int, y: int, dist: int, gauss: real)
    requires 0 <= x < w && 0 <= y < h && Nutrients(w, h, x, y, dist, gauss).Some?
    ensures dist != 5 ==> 0.0 <= Nutrients(w, h, x, y, dist, gauss).value <= MaxNutri * 1.277
    ensures dist == 5 ==> Nutrients(w, h, x, y, dist, gauss).value == gauss
  {
    SlopeShare(w, h, x, y);
    var s := ((w - x) as real) * ((h - y) as real) / ((w * h) as real);
    assert MaxNutri * ((w - x) as real) * ((h - y) as real) / ((w * h) as real) == MaxNutri * s;
  }

  /** The shapes of the flat distributions: famine is uniform, the bar
      covers the columns within 5 of the middle, the ring the squared
      distances strictly between 40 and 115 from the centre, and ids outside
      1..6 leave the dish bare. */
  lemma NutrientShapes(w: nat, h: nat, x: int, y: int, gauss: real)
    requires 0 <= x < w && 0 <= y < h
    ensures Nutrients(w, h, x, y, 6, gauss) == Some(MaxNutri / 11.062)
    ensures Nutrients(w, h, x, y, 2, gauss) == Some(MaxNutri / 4.2) <==> w / 2 - 5 < x < w / 2 + 5
    ensures Nutrients(w, h, x, y, 2, gauss) != Some(MaxNutri / 4.2) ==> Nutrients(w, h, x, y, 2, gauss) == Some(0.0)
    ensures var d2 := (x as real - 0.5 * w as real) * (x as real - 0.5 * w as real) +
                      (y as real - 0.5 * h as real) * (y as real - 0.5 * h as real);
      Nutrients(w, h, x, y, 3, gauss) == (if 40.0 < d2 < 115.0 then Some(MaxNutri / 1.008) else Some(0.0))
    ensures forall d :: (d < 1 || d > 6) ==> Nutrients(w, h, x, y, d, gauss) == Some(0.0)
  {
  }

  /** Positions of the occupied cells among the first n cells of row x. */
  function SnapRow(g: seq<seq<Celda>>, x: nat, n: nat): seq<Posicion>
    requires x < |g| && n <= |g[x]|
  {
    if n == 0 then []
    else SnapRow(g, x, n - 1) + (if g[x][n - 1].idMo != Vacio then [Posicion(x, n - 1)] else [])
  }

  /** Positions of the occupied cells of the first m rows, row by row: the
      list `move_colonies` builds before it shuffles. */
  function Snapshot(g: seq<seq<Celda>>, m: nat): seq<Posicion>
    requires m <= |g|
  {
    if m == 0 then [] else Snapshot(g, m - 1) + SnapRow(g, m - 1, |g[m - 1]|)
  }

  lemma {:induction false} SnapRowSpec(g: seq<seq<Celda>>, x: nat, n: nat, p: Posicion)
    requires x < |g| && n <= |g[x]|
    ensures p in SnapRow(g, x, n) <==> p.x == x && 0 <= p.y < n && g[x][p.y].idMo != Vacio
  {
    if n > 0 {
      SnapRowSpec(g, x, n - 1, p);
    }
  }

  /** The snapshot holds exactly the occupied cells. */
  lemma {:induction false} SnapshotSpec(g: seq<seq<Celda>>, m: nat, p: Posicion)
    requires m <= |g|
    ensures p in Snapshot(g, m) <==> 0 <= p.x < m && 0 <= p.y < |g[p.x]| && g[p.x][p.y].idMo != Vacio
  {
    if m > 0 {
      SnapshotSpec(g, m - 1, p);
      SnapRowSpec(g, m - 1, |g[m - 1]|, p);
    }
  }

  /** The neighbour of `pos` that `mitosis` takes: the first offset of
      `order`, from index k on, leading to an empty cell in the dish. */
  function FirstFree(r: nat, g: seq<seq<Celda>>, pos: Posicion, order: seq<Movimiento>, k: nat): (f: Option<nat>)
    requires IsGrid(g, 2 * r, 2 * r)
    requires k <= |order|
    ensures f.Some? ==> k <= f.value < |order|
    decreases |order| - k
  {
    if k == |order| then None
    else
      var p := Posicion(pos.x + order[k].dx, pos.y + order[k].dy);
      if IsInDish(r, p) && (InDishInGrid(r, p); g[p.x][p.y].idMo == Vacio) then Some(k)
      else FirstFree(r, g, pos, order, k + 1)
  }

  /** An empty cell of the dish reached by offset i from `pos`. */
  ghost predicate FreeAt(r: nat, g: seq<seq<Celda>>, pos: Posicion, order: seq<Movimiento>, i: int)
    requires IsGrid(g, 2 * r, 2 * r)
  {
    0 <= i < |order| &&
    var p := Posicion(pos.x + order[i].dx, pos.y + order[i].dy);
    IsInDish(r, p) && (InDishInGrid(r, p); g[p.x][p.y].idMo == Vacio)
  }

  /** FirstFree finds the first free offset at or after k, and finds none
      exactly when there is none. */
  lemma {:induction false} FirstFreeSpec(r: nat, g: seq<seq<Celda>>, pos: Posicion, order: seq<Movimiento>, k: nat)
    requires IsGrid(g, 2 * r, 2 * r) && k <= |order|
    ensures var f := FirstFree(r, g, pos, order, k);
      (f.Some? ==> k <= f.value < |order| && FreeAt(r, g, pos, order, f.value) &&
                   forall i :: k <= i < f.value ==> !FreeAt(r, g, pos, order, i)) &&
      (f.None? ==> forall i :: k <= i < |order| ==> !FreeAt(r, g, pos, order, i))
    decreases |order| - k
  {
    if k < |order| {
      FirstFreeSpec(r, g, pos, order, k + 1);
    }
  }

  /** The cell `mitosis` places the child in: the one FirstFree points at,
      an empty cell of the dish, or None when no offset leads to one. */
  function Child(r: nat, g: seq<seq<Celda>>, pos: Posicion, order: seq<Movimiento>): (c: Option<Posicion>)
    requires IsGrid(g, 2 * r, 2 * r)
    ensures c.Some? ==> IsInDish(r, c.value) && 0 <= c.value.x < 2 * r && 0 <= c.value.y < 2 * r &&
                        g[c.value.x][c.value.y].idMo == Vacio
    ensures c.None? <==> forall i :: 0 <= i < |order| ==> !FreeAt(r, g, pos, order, i)
  {
    FirstFreeSpec(r, g, pos, order, 0);
    match FirstFree(r, g, pos, order, 0)
    case None => None
    case Some(i) =>
      var p := Posicion(pos.x + order[i].dx, pos.y + order[i].dy);
      InDishInGrid(r, p);
      Some(p)
  }

  /** What each of the two agents keeps after a division: half the parent's
      energy minus 1%. */
  function Half(e: real): real
  {
    e * 0.5 - e * 0.01
  }

  /** Parent and child each keep 49% of the parent's energy, so 2% is lost;
      an agent placed with 1000 gives two of 490. */
  lemma HalfSpec(e: real)
    ensures Half(e) == 0.49 * e && Half(e) + Half(e) == 0.98 * e
    ensures e > 0.0 ==> 0.0 < Half(e) < e
    ensures Half(EInicial) == 490.0
  {
  }

  /** The defender's energy after the tie-break: nudged up or down by 0.01
      when it equals the attacker's. */
  function Nudged(e1: real, e2: real, up: bool): real
  {
    if e2 == e1 then (if up then e2 + 0.01 else e2 - 0.01) else e2
  }

  /** The combat rule of `compite` for an attacker with e1 and a defender
      with e2: whether the defender wins, and the new energies of the winner
      and the loser. */
  function Combat(e1: real, e2: real, up: bool): (r: (bool, real, real))
  {
    var e2n := Nudged(e1, e2, up);
    var defenderWins := e2n > e1;
    var (ew, el) := if defenderWins then (e2, e1) else (e1, e2);
    var diff := if e2n >= e1 then e2n - e1 else e1 - e2n;
    (defenderWins, ew + 0.075 * el, el - diff)
  }

  /** The defender wins only with strictly more energy after the tie-break,
      the winner gains 7.5% of the loser's energy, the loser loses the
      energy difference, which is 0.01 after a tie, and a loser with less
      energy than the winner ends below it. */
  lemma CombatSpec(e1: real, e2: real, up: bool)
    ensures var (dw, ew, el) := Combat(e1, e2, up);
      (dw <==> e2 > e1 || (e2 == e1 && up)) &&
      (e2 == e1 ==> el == e1 - 0.01) &&
      (e2 != e1 ==> el == (if dw then e1 else e2) - (if e2 > e1 then e2 - e1 else e1 - e2)) &&
      ew == (if dw then e2 else e1) + 0.075 * (if dw then e1 else e2) &&
      (e1 > 0.0 && e2 > 0.0 ==> ew > el && ew > (if dw then e2 else e1))
  {
  }
}

/** The shared field (lib/agar.py): a grid of cells holding the occupant's
    colony id, the occupant's energy and the nutrients, read toroidally. */
module Agar {
  import opened Defs

  /** Absolute position of an agent. */
  datatype Posicion = Posicion(x: int, y: int)

  /** Relative movement an agent asks for. */
  datatype Movimiento = Movimiento(dx: int, dy: int)

  /** One cell of the grid. */
  datatype Celda = Celda(idMo: int, energiaMo: real, nutrientes: real)

  /** The dataclass defaults: an empty cell without energy or nutrients. */
  const DefaultCelda: Celda := Celda(Vacio, 0.0, 0.0)

  /** `celdas` is a `w` by `h` list of lists. */
  ghost predicate IsGrid(celdas: seq<seq<Celda>>, w: int, h: int)
  {
    |celdas| == w && forall i :: 0 <= i < |celdas| ==> |celdas[i]| == h
  }

  /** Adding a whole number of periods does not change a residue. */
  lemma {:induction false} ModShift(a: int, k: int, m: int)
    requires m > 0
    ensures (a + k * m) % m == a % m
    decreases if k < 0 then -k else k
  {
    if k > 0 {
      ModShift(a, k - 1, m);
      assert a + k * m == (a + (k - 1) * m) + m;
      ModStep(a + (k - 1) * m, m);
    } else if k < 0 {
      ModShift(a, k + 1, m);
      assert a + (k + 1) * m == (a + k * m) + m;
      ModStep(a + k * m, m);
    }
  }

  /** One period: (b + m) % m == b % m. */
  lemma ModStep(b: int, m: int)
    requires m > 0
    ensures (b + m) % m == b % m
  {
    var q, r := b / m, b % m;
    assert b == q * m + r;
    assert b + m == (q + 1) * m + r;
    ModUnique(b + m, q + 1, r, m);
  }

  /** A residue in [0, m) determines `%`. */
  lemma ModUnique(a: int, q: int, r: int, m: int)
    requires m > 0 && 0 <= r < m && a == q * m + r
    ensures a % m == r
  {
    var q', r' := a / m, a % m;
    assert a == q' * m + r';
    var d := q - q';
    assert d * m == r' - r by {
      assert q * m - q' * m == (q - q') * m;
    }
    if d >= 1 {
      MulAtLeast(d, m);
      assert false;
    } else if d <= -1 {
      MulAtLeast(-d, m);
      assert false;
    }
  }

  lemma MulAtLeast(d: int, m: int)
    requires m > 0 && d >= 1
    ensures d * m >= m
  {
  }

  /** The nutrients read at (x, y) on the w by h field g displaced by the
      offset (rx, ry), wrapping around in both coordinates. */
  function NutrientsAt(g: seq<seq<Celda>>, w: int, h: int, rx: int, ry: int, x: int, y: int): real
    requires w > 0 && h > 0 && IsGrid(g, w, h)
  {
    g[(x + rx) % w][(y + ry) % h].nutrientes
  }

  /** The field. Only the simulation engine writes `celdas`, `rx` and `ry`. */
  class Agar {
    var mxX: int
    var mxY: int
    /** Drift offset of the nutrient reads; never reduced modulo the size. */
    var rx: int
    var ry: int
    var distN: int
    var celdas: seq<seq<Celda>>

    /** A fresh field before the engine sizes it. */
    constructor ()
      ensures mxX == 0 && mxY == 0 && rx == 0 && ry == 0 && distN == 0 && celdas == []
    {
      mxX, mxY, rx, ry, distN, celdas := 0, 0, 0, 0, 0, [];
    }

    /** The sized field: the accessors divide by the sizes. */
    ghost predicate Valid()
      reads this
    {
      mxX > 0 && mxY > 0 && IsGrid(celdas, mxX, mxY)
    }

    function MaxX(): int
      reads this
    {
      mxX
    }

    function MaxY(): int
      reads this
    {
      mxY
    }

    function DistNutri(): int
      reads this
    {
      distN
    }

    /** Colony id of the occupant of the cell (x, y), wrapping around. */
    function Ocupacion(x: int, y: int): int
      reads this
      requires Valid()
    {
      celdas[x % mxX][y % mxY].idMo
    }

    /** Energy of the occupant of the cell (x, y), wrapping around. */
    function Energia(x: int, y: int): real
      reads this
      requires Valid()
    {
      celdas[x % mxX][y % mxY].energiaMo
    }

    /** Nutrients under (x, y): the read is shifted by the drift offset. */
    function Nutrientes(x: int, y: int): real
      reads this
      requires Valid()
    {
      NutrientsAt(celdas, mxX, mxY, rx, ry, x, y)
    }
  }

  /** Every accessor reads a cell of the grid for any integers, including
      negative coordinates and any drift offset. */
  lemma AccessorsInRange(a: Agar, x: int, y: int)
    requires a.Valid()
    ensures 0 <= x % a.mxX < |a.celdas| && 0 <= y % a.mxY < |a.celdas[x % a.mxX]|
    ensures 0 <= (x + a.rx) % a.mxX < |a.celdas| && 0 <= (y + a.ry) % a.mxY < |a.celdas[(x + a.rx) % a.mxX]|
    ensures a.Ocupacion(x, y) == a.celdas[x % a.mxX][y % a.mxY].idMo
    ensures a.Energia(x, y) == a.celdas[x % a.mxX][y % a.mxY].energiaMo
    ensures a.Nutrientes(x, y) == a.celdas[(x + a.rx) % a.mxX][(y + a.ry) % a.mxY].nutrientes
  {
  }

  /** The three accessors are periodic in both coordinates. */
  lemma {:induction false} Periodic(a: Agar, x: int, y: int, i: int, j: int)
    requires a.Valid()
    ensures a.Ocupacion(x + i * a.mxX, y + j * a.mxY) == a.Ocupacion(x, y)
    ensures a.Energia(x + i * a.mxX, y + j * a.mxY) == a.Energia(x, y)
    ensures a.Nutrientes(x + i * a.mxX, y + j * a.mxY) == a.Nutrientes(x, y)
  {
    ModShift(x, i, a.mxX);
    ModShift(y, j, a.mxY);
    ModShift(x + a.rx, i, a.mxX);
    ModShift(y + a.ry, j, a.mxY);
    assert x + i * a.mxX + a.rx == (x + a.rx) + i * a.mxX;
    assert y + j * a.mxY + a.ry == (y + a.ry) + j * a.mxY;
  }

  /** Inside the grid the occupancy and energy reads are the cells themselves,
      and the nutrient read is the cell displaced by the drift offset. */
  lemma InGridReads(a: Agar, x: int, y: int)
    requires a.Valid() && 0 <= x < a.mxX && 0 <= y < a.mxY
    ensures a.Ocupacion(x, y) == a.celdas[x][y].idMo
    ensures a.Energia(x, y) == a.celdas[x][y].energiaMo
    ensures a.Nutrientes(x - a.rx, y - a.ry) == a.celdas[x][y].nutrientes
  {
    ModUnique(x, 0, x, a.mxX);
    ModUnique(y, 0, y, a.mxY);
    assert x - a.rx + a.rx == x;
    assert y - a.ry + a.ry == y;
  }
}

/** MOyy (mos/moyy.py): follows the nutrients along the y axis only. This is
    the one catalogued class built on the English base class. */
module MOyy {
  import opened Agar

  function Nombre(): string { "MOyy" }

  function Autor(): string { "Compu2" }

  /** The decision on the w by h field g read with the offset (rx, ry). */
  function Toward(g: seq<seq<Celda>>, w: int, h: int, rx: int, ry: int, pos: Posicion): Movimiento
    requires w > 0 && h > 0 && IsGrid(g, w, h)
  {
    var here := NutrientsAt(g, w, h, rx, ry, pos.x, pos.y);
    if NutrientsAt(g, w, h, rx, ry, pos.x, pos.y - 1) > here then Movimiento(0, -1)
    else if NutrientsAt(g, w, h, rx, ry, pos.x, pos.y + 1) > here then Movimiento(0, 1)
    else Movimiento(0, 0)
  }

  /** The move towards more food along y: y - 1 wins over y + 1, and only a
      strictly richer neighbour attracts. */
  function Decision(agar: Agar, pos: Posicion): (mov: Movimiento)
    reads agar
    requires agar.Valid()
    ensures mov.dx == 0 && -1 <= mov.dy <= 1
    ensures mov.dy == -1 <==> agar.Nutrientes(pos.x, pos.y - 1) > agar.Nutrientes(pos.x, pos.y)
    ensures mov.dy == 1 <==> !(agar.Nutrientes(pos.x, pos.y - 1) > agar.Nutrientes(pos.x, pos.y))
                             && agar.Nutrientes(pos.x, pos.y + 1) > agar.Nutrientes(pos.x, pos.y)
  {
    Toward(agar.celdas, agar.mxX, agar.mxY, agar.rx, agar.ry, pos)
  }

  /** Writes the decision into the agent's movement. */
  method Move(agar: Agar, pos: Posicion) returns (mov: Movimiento)
    requires agar.Valid()
    ensures mov == Decision(agar, pos)
    ensures mov.dy == 0 <==> agar.Nutrientes(pos.x, pos.y - 1) <= agar.Nutrientes(pos.x, pos.y)
                             && agar.Nutrientes(pos.x, pos.y + 1) <= agar.Nutrientes(pos.x, pos.y)
  {
    var dy;
    if agar.Nutrientes(pos.x, pos.y - 1) > agar.Nutrientes(pos.x, pos.y) {
      dy := -1;
    } else if agar.Nutrientes(pos.x, pos.y + 1) > agar.Nutrientes(pos.x, pos.y) {
      dy := 1;
    } else {
      dy := 0;
    }
    mov := Movimiento(0, dy);
  }

  /** Reproduces above 500 units of energy. */
  function Mitosis(ene: real): (r: bool)
    ensures r <==> ene > 500.0
  {
    ene > 500.0
  }
}

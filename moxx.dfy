/** MOxx (mos/moxx.py): follows the nutrients along the x axis only. The
    class extends the Spanish base class but overrides the English names. */
module MOxx {
  import opened Agar

  function Nombre(): string { "MOxx" }

  function Autor(): string { "Compu2" }

  /** The move towards more food along x: left wins over right, and only a
      strictly richer neighbour attracts. */
  function Decision(agar: Agar, pos: Posicion): (mov: Movimiento)
    reads agar
    requires agar.Valid()
    ensures mov.dy == 0 && -1 <= mov.dx <= 1
    ensures mov.dx == -1 <==> agar.Nutrientes(pos.x - 1, pos.y) > agar.Nutrientes(pos.x, pos.y)
    ensures mov.dx == 1 <==> !(agar.Nutrientes(pos.x - 1, pos.y) > agar.Nutrientes(pos.x, pos.y))
                             && agar.Nutrientes(pos.x + 1, pos.y) > agar.Nutrientes(pos.x, pos.y)
  {
    var here := agar.Nutrientes(pos.x, pos.y);
    if agar.Nutrientes(pos.x - 1, pos.y) > here then Movimiento(-1, 0)
    else if agar.Nutrientes(pos.x + 1, pos.y) > here then Movimiento(1, 0)
    else Movimiento(0, 0)
  }

  /** Writes the decision into the agent's movement. */
  method Move(agar: Agar, pos: Posicion) returns (mov: Movimiento)
    requires agar.Valid()
    ensures mov == Decision(agar, pos)
    ensures mov.dx == 0 <==> agar.Nutrientes(pos.x - 1, pos.y) <= agar.Nutrientes(pos.x, pos.y)
                             && agar.Nutrientes(pos.x + 1, pos.y) <= agar.Nutrientes(pos.x, pos.y)
  {
    var dx;
    if agar.Nutrientes(pos.x - 1, pos.y) > agar.Nutrientes(pos.x, pos.y) {
      dx := -1;
    } else if agar.Nutrientes(pos.x + 1, pos.y) > agar.Nutrientes(pos.x, pos.y) {
      dx := 1;
    } else {
      dx := 0;
    }
    mov := Movimiento(dx, 0);
  }

  /** Reproduces above 500 units of energy. */
  function Mitosis(ene: real): (r: bool)
    ensures r <==> ene > 500.0
  {
    ene > 500.0
  }
}

/** MOpp (mos/mopp.py): always steps diagonally towards (1, 1). The class
    extends the Spanish base class but overrides the English names. */
module MOpp {
  import opened Agar

  function Nombre(): string { "MO++" }

  function Autor(): string { "Compu2" }

  /** The decision ignores position, energy and field. */
  method Move() returns (mov: Movimiento)
    ensures mov == Movimiento(1, 1)
  {
    mov := Movimiento(1, 1);
  }

  /** Never reproduces. */
  function Mitosis(): (r: bool)
    ensures !r
  {
    false
  }
}

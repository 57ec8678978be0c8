/** MOmm (mos/momm.py): always steps diagonally towards (-1, -1); built on
    the Spanish base class. */
module MOmm {
  import opened Agar

  function Nombre(): string { "MO--" }

  function Autor(): string { "Compu2" }

  /** The decision ignores position, energy and field. */
  method DecidirMovimiento() returns (mov: Movimiento)
    ensures mov == Movimiento(-1, -1)
  {
    mov := Movimiento(-1, -1);
  }

  /** Never reproduces. */
  function QuiereMitosis(): (r: bool)
    ensures !r
  {
    false
  }
}

/** Aleatorio (mos/aleatorio.py): a random walker built on the Spanish base
    class. The two draws of `random.randint(0, 2)` are inputs. */
module Aleatorio {
  import opened Agar

  function Nombre(): string { "Aleatorio" }

  function Autor(): string { "Compu2" }

  /** The move made from two draws in {0, 1, 2}: one draw per axis. */
  function Decision(drawX: int, drawY: int): (mov: Movimiento)
    requires 0 <= drawX <= 2 && 0 <= drawY <= 2
    ensures -1 <= mov.dx <= 1 && -1 <= mov.dy <= 1
  {
    Movimiento(drawX - 1, drawY - 1)
  }

  /** Each axis is drawn independently from {-1, 0, 1}; neither the field nor
      the energy is consulted. */
  method DecidirMovimiento(drawX: int, drawY: int) returns (mov: Movimiento)
    requires 0 <= drawX <= 2 && 0 <= drawY <= 2
    ensures mov == Decision(drawX, drawY)
    ensures mov.dx == drawX - 1 && mov.dy == drawY - 1
  {
    mov := Movimiento(drawX - 1, drawY - 1);
  }

  /** Reproduces only above 5000 units of energy. */
  function QuiereMitosis(ene: real): (r: bool)
    ensures r <==> ene > 5000.0
  {
    ene > 5000.0
  }

  /** Every one of the nine moves can be drawn. */
  lemma EveryMoveReachable(dx: int, dy: int)
    requires -1 <= dx <= 1 && -1 <= dy <= 1
    ensures exists a, b :: 0 <= a <= 2 && 0 <= b <= 2 && Decision(a, b) == Movimiento(dx, dy)
  {
    assert Decision(dx + 1, dy + 1) == Movimiento(dx, dy);
  }
}

/** The English agent base class (lib/microorg.py). Subclasses override
    `move` and `mitosis`; among the catalogued policies only MOyy extends this
    class. */
module Microorg {
  import opened Py
  import opened Agar
  import opened Mos
  import PMOyy = MOyy

  /** The base class's placeholders. */
  function Nombre(): string { "microorganismo abstracto" }

  function Autor(): string { "no sabe, no contesta" }

  /** The decision of kind k on the w by h field g read with the offset
      (rx, ry). */
  function Choice(k: Kind, g: seq<seq<Celda>>, w: int, h: int, rx: int, ry: int, p: Posicion): Movimiento
    requires w > 0 && h > 0 && IsGrid(g, w, h)
  {
    if k == MOyy then PMOyy.Toward(g, w, h, rx, ry, p) else Movimiento(0, 0)
  }

  /** What `move` writes for an agent of kind k at p: the subclass's own
      choice when it has one, the base's (0, 0) otherwise. */
  function Decision(k: Kind, agar: Agar, p: Posicion): (mov: Movimiento)
    reads agar
    requires agar.Valid()
    ensures k != MOyy ==> mov == Movimiento(0, 0)
    ensures k == MOyy ==> mov == PMOyy.Decision(agar, p)
  {
    Choice(k, agar.celdas, agar.mxX, agar.mxY, agar.rx, agar.ry, p)
  }

  class Microorganismo {
    /** The concrete subclass. */
    const kind: Kind
    /** Colony identifier, absolute position and energy, written by Petri
        through `Update` before each decision. */
    var id: int
    var pos: Option<Posicion>
    var ene: real

    constructor(k: Kind)
      requires BaseOf(k) == English
      ensures kind == k && id == 0 && pos == None && ene == 0.0
    {
      kind := k;
      id, pos, ene := 0, None, 0.0;
    }

    /** Sets exactly the three attributes. */
    method Update(i: int, p: Posicion, e: real)
      modifies this
      ensures id == i && pos == Some(p) && ene == e
    {
      id, pos, ene := i, Some(p), e;
    }

    /** The movement the agent asks for; the base class stays put. */
    method Move(agar: Agar) returns (mov: Movimiento)
      requires agar.Valid() && pos.Some?
      ensures mov == Decision(kind, agar, pos.value)
      ensures kind != MOyy ==> mov == Movimiento(0, 0)
    {
      if kind == MOyy {
        mov := PMOyy.Move(agar, pos.value);
      } else {
        mov := Movimiento(0, 0);
      }
    }

    /** Whether the agent asks to divide; the base class never does. */
    function Mitosis(): (r: bool)
      reads this
      ensures r <==> kind == MOyy && ene > 500.0
    {
      if kind == MOyy then PMOyy.Mitosis(ene) else false
    }

    /** The deprecated entry point: stays put whatever the position. */
    method Mover(p: Posicion) returns (mov: Movimiento)
      ensures mov == Movimiento(0, 0)
    {
      mov := Movimiento(0, 0);
    }
  }
}

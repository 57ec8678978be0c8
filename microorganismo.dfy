/** The Spanish agent base class (lib/microorganismo.py). Subclasses
    override `decidir_movimiento` and `quiere_mitosis`; Aleatorio and MOmm do,
    while BuscaN, MOpp, MOxx and Tacticas2 extend this class but override
    only the English names, so they inherit the defaults here. */
module Microorganismo {
  import opened Py
  import opened Agar
  import opened Mos
  import PAleatorio = Aleatorio
  import PMOmm = MOmm

  /** The base class's placeholders. */
  function Nombre(): string { "microorganismo abstracto" }

  function Autor(): string { "no sabe, no contesta" }

  /** Well-formed draws for Aleatorio's two `random.randint(0, 2)` calls. */
  predicate Tirada(draw: (int, int))
  {
    0 <= draw.0 <= 2 && 0 <= draw.1 <= 2
  }

  /** What `decidir_movimiento` writes for an agent of kind k: Aleatorio's
      draw, MOmm's fixed diagonal, the base's (0, 0) for everyone else. */
  function Decision(k: Kind, draw: (int, int)): (mov: Movimiento)
    requires Tirada(draw)
    ensures -1 <= mov.dx <= 1 && -1 <= mov.dy <= 1
    ensures !DefinesDecidirMovimiento(k) ==> mov == Movimiento(0, 0)
  {
    match k
    case Aleatorio => PAleatorio.Decision(draw.0, draw.1)
    case MOmm => Movimiento(-1, -1)
    case _ => Movimiento(0, 0)
  }

  class Microorganismo {
    /** The concrete subclass. */
    const kind: Kind
    var id: int
    var pos: Option<Posicion>
    var ene: real

    constructor(k: Kind)
      requires BaseOf(k) == Spanish
      ensures kind == k && id == 0 && pos == None && ene == 0.0
    {
      kind := k;
      id, pos, ene := 0, None, 0.0;
    }

    /** Sets exactly the three attributes. */
    method Actualizar(i: int, p: Posicion, e: real)
      modifies this
      ensures id == i && pos == Some(p) && ene == e
    {
      id, pos, ene := i, Some(p), e;
    }

    /** The movement the agent asks for; the base class stays put. */
    method DecidirMovimiento(draw: (int, int)) returns (mov: Movimiento)
      requires Tirada(draw)
      ensures mov == Decision(kind, draw)
      ensures kind == MOmm ==> mov == Movimiento(-1, -1)
    {
      if kind == Aleatorio {
        mov := PAleatorio.DecidirMovimiento(draw.0, draw.1);
      } else if kind == MOmm {
        mov := PMOmm.DecidirMovimiento();
      } else {
        mov := Movimiento(0, 0);
      }
    }

    /** Whether the agent asks to divide: Aleatorio above 5000, never
        otherwise. */
    function QuiereMitosis(): (r: bool)
      reads this
      ensures r <==> kind == Aleatorio && ene > 5000.0
    {
      match kind
      case Aleatorio => PAleatorio.QuiereMitosis(ene)
      case MOmm => PMOmm.QuiereMitosis()
      case _ => false
    }
  }
}

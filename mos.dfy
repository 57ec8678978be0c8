/** The catalogue of reference microorganisms (the files under mos/) and which of the two
    agent base classes each one extends. The repository is half-way between
    an English base class (lib/microorg.py: update, move, mitosis) and a
    Spanish one (lib/microorganismo.py: actualizar, decidir_movimiento,
    quiere_mitosis); Python resolves a call by name, so what an agent does
    depends on the base it extends and the names it overrides. */
module Mos {
  import PAleatorio = Aleatorio
  import PBuscaN = BuscaN
  import PMOmm = MOmm
  import PMOpp = MOpp
  import PMOxx = MOxx
  import PMOyy = MOyy
  import PTacticas2 = Tacticas2

  datatype Kind = Aleatorio | BuscaN | MOmm | MOpp | MOxx | MOyy | Tacticas2

  datatype Base = English | Spanish

  /** The base class each policy file imports: only MOyy extends the English
      one. */
  function BaseOf(k: Kind): (b: Base)
    ensures b == English <==> k == MOyy
  {
    match k
    case MOyy => English
    case _ => Spanish
  }

  /** Policies that override the English `move` and `mitosis`. */
  predicate DefinesMove(k: Kind)
  {
    k in {BuscaN, MOpp, MOxx, MOyy, Tacticas2}
  }

  /** Policies that override the Spanish `decidir_movimiento` and
      `quiere_mitosis`. */
  predicate DefinesDecidirMovimiento(k: Kind)
  {
    k in {Aleatorio, MOmm}
  }

  /** Every policy overrides exactly one of the two naming schemes, and only
      MOyy overrides the scheme of its own base: the Spanish-based BuscaN,
      MOpp, MOxx and Tacticas2 override English names their base never
      calls. */
  lemma OverridesOneScheme(k: Kind)
    ensures DefinesMove(k) != DefinesDecidirMovimiento(k)
    ensures (BaseOf(k) == English) == DefinesMove(k) <==> k in {Aleatorio, MOmm, MOyy}
  {
  }

  function Nombre(k: Kind): string
  {
    match k
    case Aleatorio => PAleatorio.Nombre()
    case BuscaN => PBuscaN.Nombre()
    case MOmm => PMOmm.Nombre()
    case MOpp => PMOpp.Nombre()
    case MOxx => PMOxx.Nombre()
    case MOyy => PMOyy.Nombre()
    case Tacticas2 => PTacticas2.Nombre()
  }

  function Autor(k: Kind): string
  {
    match k
    case Aleatorio => PAleatorio.Autor()
    case BuscaN => PBuscaN.Autor()
    case MOmm => PMOmm.Autor()
    case MOpp => PMOpp.Autor()
    case MOxx => PMOxx.Autor()
    case MOyy => PMOyy.Autor()
    case Tacticas2 => PTacticas2.Autor()
  }

  /** Names identify policies, and every catalogued policy is by "Compu2". */
  lemma NombresDistintos(k1: Kind, k2: Kind)
    ensures Nombre(k1) == Nombre(k2) <==> k1 == k2
    ensures Autor(k1) == "Compu2"
  {
  }
}

/** An agent object of either base class, as stored in a colony's grid, and
    the instantiation of a policy class. */
module Instancia {
  import opened Mos
  import Microorg
  import Microorganismo

  datatype Mo = EnglishMo(en: Microorg.Microorganismo) | SpanishMo(es: Microorganismo.Microorganismo)
  {
    function Kind(): Mos.Kind
    {
      match this
      case EnglishMo(a) => a.kind
      case SpanishMo(a) => a.kind
    }
  }

  /** A fresh agent of class k, built on k's base class. */
  method Nuevo(k: Kind) returns (m: Mo)
    ensures m.Kind() == k
    ensures m.EnglishMo? <==> BaseOf(k) == Mos.English
    ensures m.EnglishMo? ==> fresh(m.en) && m.en.id == 0 && m.en.pos.None? && m.en.ene == 0.0
    ensures m.SpanishMo? ==> fresh(m.es) && m.es.id == 0 && m.es.pos.None? && m.es.ene == 0.0
  {
    if BaseOf(k) == Mos.English {
      var a := new Microorg.Microorganismo(k);
      m := EnglishMo(a);
    } else {
      var a := new Microorganismo.Microorganismo(k);
      m := SpanishMo(a);
    }
  }
}

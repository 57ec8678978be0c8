/** The Spanish-named twin of the colony (vida/colonia.py): the same grids of
    agent slots, cached movements and division flags and a live counter,
    driven through the agents' `actualizar`, `decidir_movimiento` and
    `quiere_mitosis`. */
module VidaColonia {
  import opened Py
  import opened Agar
  import opened Mos
  import opened Instancia
  import opened Rejilla
  import Microorganismo

  class Colonia {
    const identidad: int
    const maxX: nat
    const maxY: nat
    /** The class the colony instantiates. */
    const kind: Kind
    /** The instance consulted for the name and the author. */
    const protoMo: Mo
    var nMosVivos: int
    var misMos: seq<seq<Option<Mo>>>
    var movimientos: seq<seq<Movimiento>>
    var duplicaciones: seq<seq<bool>>
    /** The Spanish-based agents the colony has created. */
    ghost var Repr: set<Microorganismo.Microorganismo>

    /** Grid shapes (agent rows may only have shrunk) and every agent an
        instance of the colony's class, on that class's base, created by this
        colony. */
    ghost predicate Valid()
      reads this
    {
      GridOk(misMos) &&
      |movimientos| == maxX && (forall i :: 0 <= i < maxX ==> |movimientos[i]| == maxY) &&
      |duplicaciones| == maxX && (forall i :: 0 <= i < maxX ==> |duplicaciones[i]| == maxY) &&
      protoMo.Kind() == kind
    }

    /** An agent grid of this colony: maxX rows of at most maxY slots. */
    ghost predicate GridOk(g: seq<seq<Option<Mo>>>)
      reads this
    {
      |g| == maxX && (forall i :: 0 <= i < maxX ==> |g[i]| <= maxY) &&
      (forall i, j :: 0 <= i < |g| && 0 <= j < |g[i]| && g[i][j].Some? ==> AgentOk(g[i][j].value))
    }

    ghost predicate AgentOk(m: Mo)
      reads this
    {
      m.Kind() == kind && (m.EnglishMo? <==> BaseOf(kind) == English) &&
      (m.SpanishMo? ==> m.es in Repr)
    }

    /** Storing nothing, or an agent of this colony, keeps a grid well formed. */
    lemma GridOkSet(g: seq<seq<Option<Mo>>>, i: nat, j: nat, v: Option<Mo>)
      requires GridOk(g) && i < |g| && j < |g[i]|
      requires v.None? || AgentOk(v.value)
      ensures GridOk(Set2(g, i, j, v))
    {
    }

    /** Every agent row still has its full length. */
    ghost predicate Rectangular()
      reads this
    {
      forall i :: 0 <= i < |misMos| ==> |misMos[i]| == maxY
    }

    /** The counter is the number of agents. */
    ghost predicate Counted()
      reads this
    {
      nMosVivos == Count(misMos)
    }

    /** An empty colony of class k on a 2 radio by 2 radio grid. */
    constructor(k: Kind, id: int, radio: nat)
      ensures identidad == id && kind == k && maxX == 2 * radio && maxY == 2 * radio
      ensures Valid() && Rectangular() && Counted() && Repr == {}
      ensures nMosVivos == 0 && misMos == Empty(maxX, maxY)
      ensures forall i, j :: 0 <= i < maxX && 0 <= j < maxY ==>
                movimientos[i][j] == Movimiento(0, 0) && !duplicaciones[i][j]
    {
      identidad, kind := id, k;
      maxX, maxY := 2 * radio, 2 * radio;
      nMosVivos := 0;
      misMos := Empty(2 * radio, 2 * radio);
      movimientos := seq(2 * radio, _ => seq(2 * radio, _ => Movimiento(0, 0)));
      duplicaciones := seq(2 * radio, _ => seq(2 * radio, _ => false));
      var proto := Nuevo(k);
      protoMo := proto;
      Repr := {};
      new;
      CountEmpty(misMos);
    }

    /** `n_vivos`: the counter, which is the number of agents. */
    function NVivos(): (n: int)
      reads this
      ensures Counted() ==> n == Count(misMos)
    {
      nMosVivos
    }

    /** The cached movement at (x, y), (0, 0) when the subscript raises. */
    function MovimientoDe(x: int, y: int): (m: Movimiento)
      reads this
      ensures Index2(movimientos, x, y).None? ==> m == Movimiento(0, 0)
      ensures 0 <= x < |movimientos| && 0 <= y < |movimientos[x]| ==> m == movimientos[x][y]
    {
      match Index2(movimientos, x, y)
      case None => Movimiento(0, 0)
      case Some((i, j)) => movimientos[i][j]
    }

    /** Whether the agent at (x, y) asked to move. */
    function Movio(x: int, y: int): (r: bool)
      reads this
      ensures r <==> MovimientoDe(x, y) != Movimiento(0, 0)
    {
      match Index2(movimientos, x, y)
      case None => false
      case Some((i, j)) => movimientos[i][j].dx != 0 || movimientos[i][j].dy != 0
    }

    /** Whether the agent at (x, y) asked to divide, False when the subscript
        raises. */
    function Duplica(x: int, y: int): (r: bool)
      reads this
      ensures Index2(duplicaciones, x, y).None? ==> !r
      ensures 0 <= x < |duplicaciones| && 0 <= y < |duplicaciones[x]| ==> r == duplicaciones[x][y]
    {
      match Index2(duplicaciones, x, y)
      case None => false
      case Some((i, j)) => duplicaciones[i][j]
    }

    /** A slot that an agent subscript reaches is also reachable in the
        movement and flag grids. */
    lemma CacheSlot(x: int, y: int)
      requires Valid() && Index2(misMos, x, y).Some?
      ensures Index2(movimientos, x, y).Some? && Index2(duplicaciones, x, y).Some?
      ensures Index2(movimientos, x, y).value.0 == Index2(misMos, x, y).value.0
      ensures Index2(movimientos, x, y) == Index2(duplicaciones, x, y)
      ensures Rectangular() ==> Index2(movimientos, x, y) == Index2(misMos, x, y)
    {
    }

    /** Places a new agent in an empty slot; an occupied slot or an
        IndexError leaves everything as it was. */
    method Crear(x: int, y: int)
      requires Valid()
      modifies this
      ensures Valid() && movimientos == old(movimientos) && duplicaciones == old(duplicaciones)
      ensures |misMos| == |old(misMos)| && forall i :: 0 <= i < |misMos| ==> |misMos[i]| == |old(misMos)[i]|
      ensures var s := old(Index2(misMos, x, y));
        if s.Some? && old(misMos)[s.value.0][s.value.1].None? then
          var m := misMos[s.value.0][s.value.1];
          m.Some? && m.value.Kind() == kind &&
          (m.value.SpanishMo? ==> fresh(m.value.es)) &&
          misMos == Set2(old(misMos), s.value.0, s.value.1, m) &&
          nMosVivos == old(nMosVivos) + 1
        else
          misMos == old(misMos) && nMosVivos == old(nMosVivos)
      ensures old(Repr) <= Repr && fresh(Repr - old(Repr))
      ensures old(Rectangular()) ==> Rectangular()
      ensures old(Counted()) ==> Counted()
    {
      match Index2(misMos, x, y) {
        case None =>
        case Some((i, j)) =>
          if misMos[i][j].None? {
            var m := Nuevo(kind);
            CountUpdate(misMos, i, j, Some(m));
            if m.SpanishMo? {
              Repr := Repr + {m.es};
            }
            misMos := Set2(misMos, i, j, Some(m));
            nMosVivos := nMosVivos + 1;
          }
      }
    }

    /** The removal as written: `del` removes the slot and shortens the row,
        then the slot that y now reaches is cleared; if that subscript raises,
        the counter and caches stay as they were. */
    method EliminarAsWritten(x: int, y: int)
      requires Valid()
      modifies this
      ensures Valid() && Repr == old(Repr)
      ensures var s := old(Index2(misMos, x, y));
        if s.Some? && old(misMos)[s.value.0][s.value.1].Some? then
          var (row, ok) := DelThenClear(old(misMos)[s.value.0], y);
          var t := old(Index2(movimientos, x, y));
          misMos == old(misMos)[s.value.0 := row] &&
          t.Some? &&
          (ok ==> nMosVivos == old(nMosVivos) - 1 &&
                  movimientos == Set2(old(movimientos), t.value.0, t.value.1, Movimiento(0, 0)) &&
                  duplicaciones == Set2(old(duplicaciones), t.value.0, t.value.1, false)) &&
          (!ok ==> nMosVivos == old(nMosVivos) && movimientos == old(movimientos) &&
                   duplicaciones == old(duplicaciones))
        else
          misMos == old(misMos) && nMosVivos == old(nMosVivos) &&
          movimientos == old(movimientos) && duplicaciones == old(duplicaciones)
    {
      match Index2(misMos, x, y) {
        case None =>
        case Some((i, j)) =>
          if misMos[i][j].Some? {
            CacheSlot(x, y);
            var (row, ok) := DelThenClear(misMos[i], y);
            misMos := misMos[i := row];
            if ok {
              nMosVivos := nMosVivos - 1;
              var (p, q) := Index2(movimientos, x, y).value;
              movimientos := Set2(movimientos, p, q, Movimiento(0, 0));
              duplicaciones := Set2(duplicaciones, p, q, false);
            }
          }
      }
    }

    /** The removal as evidently intended: the slot is cleared in place, the
        counter drops and the caches of the slot are reset. */
    method Eliminar(x: int, y: int)
      requires Valid()
      modifies this
      ensures Valid() && Repr == old(Repr)
      ensures var s := old(Index2(misMos, x, y));
        if s.Some? && old(misMos)[s.value.0][s.value.1].Some? then
          var t := old(Index2(movimientos, x, y));
          misMos == Set2(old(misMos), s.value.0, s.value.1, None) &&
          nMosVivos == old(nMosVivos) - 1 &&
          t.Some? &&
          movimientos == Set2(old(movimientos), t.value.0, t.value.1, Movimiento(0, 0)) &&
          duplicaciones == Set2(old(duplicaciones), t.value.0, t.value.1, false)
        else
          misMos == old(misMos) && nMosVivos == old(nMosVivos) &&
          movimientos == old(movimientos) && duplicaciones == old(duplicaciones)
      ensures old(Rectangular()) ==> Rectangular()
      ensures old(Counted()) ==> Counted()
    {
      match Index2(misMos, x, y) {
        case None =>
        case Some((i, j)) =>
          if misMos[i][j].Some? {
            CacheSlot(x, y);
            CountUpdate(misMos, i, j, None);
            GridOkSet(misMos, i, j, None);
            misMos := Set2(misMos, i, j, None);
            nMosVivos := nMosVivos - 1;
            var (p, q) := Index2(movimientos, x, y).value;
            movimientos := Set2(movimientos, p, q, Movimiento(0, 0));
            duplicaciones := Set2(duplicaciones, p, q, false);
          }
      }
    }

    /** Moves the agent object from anterior to nueva, empties anterior and
        resets its caches; the counter is untouched, which is right when
        nueva was empty (Rejilla.CountMove). */
    method Mover(anterior: Posicion, nueva: Posicion)
      requires Valid()
      modifies this
      ensures Valid() && Repr == old(Repr) && nMosVivos == old(nMosVivos)
      ensures var s := old(Index2(misMos, anterior.x, anterior.y));
        var d := old(Index2(misMos, nueva.x, nueva.y));
        if s.Some? && d.Some? then
          var t := old(Index2(movimientos, anterior.x, anterior.y));
          misMos == Set2(Set2(old(misMos), d.value.0, d.value.1, old(misMos)[s.value.0][s.value.1]),
                         s.value.0, s.value.1, None) &&
          t.Some? &&
          movimientos == Set2(old(movimientos), t.value.0, t.value.1, Movimiento(0, 0)) &&
          duplicaciones == Set2(old(duplicaciones), t.value.0, t.value.1, false)
        else
          misMos == old(misMos) && movimientos == old(movimientos) && duplicaciones == old(duplicaciones)
      ensures old(Rectangular()) ==> Rectangular()
    {
      match Index2(misMos, anterior.x, anterior.y) {
        case None =>
        case Some((i, j)) =>
          match Index2(misMos, nueva.x, nueva.y) {
            case None =>
            case Some((k, l)) =>
              CacheSlot(anterior.x, anterior.y);
              var m := misMos[i][j];
              GridOkSet(misMos, k, l, m);
              GridOkSet(Set2(misMos, k, l, m), i, j, None);
              misMos := Set2(Set2(misMos, k, l, m), i, j, None);
              var (p, q) := Index2(movimientos, anterior.x, anterior.y).value;
              movimientos := Set2(movimientos, p, q, Movimiento(0, 0));
              duplicaciones := Set2(duplicaciones, p, q, false);
          }
      }
    }

    /** The slot `vivir(x, y)` acts on, for non-zero sizes: the coordinates
        reduced modulo the sizes; None when the subscript raises IndexError
        (a row shortened by a removal). */
    ghost function VivirSlot(x: int, y: int): (r: Option<(nat, nat)>)
      reads this
      requires Valid() && maxX > 0 && maxY > 0
      ensures r.Some? ==> r.value == (x % maxX, y % maxY)
      ensures r.Some? <==> y % maxY < |misMos[x % maxX]|
    {
      Index2(misMos, x % maxX, y % maxY)
    }

    /** The agent `vivir(x, y)` may update: a Spanish-based occupant of the
        slot it acts on. */
    ghost function VivirTarget(x: int, y: int): set<object>
      reads this
      requires Valid()
    {
      if maxX == 0 || maxY == 0 || VivirSlot(x, y).None? then {}
      else
        var (i, j) := VivirSlot(x, y).value;
        if misMos[i][j].Some? && misMos[i][j].value.SpanishMo? then {misMos[i][j].value.es} else {}
    }

    /** One life step of the agent at (x, y): it is told its colony, position
        and energy, asked for a movement (with `draw` standing for the random
        choices Aleatorio makes) and asked whether to divide. An empty slot
        gets its caches reset. `raised` reports the exceptions that escape:
        ZeroDivisionError on an empty grid, and AttributeError for an agent
        on the English base, which has no `actualizar`. */
    method Vivir(agar: Agar, x: int, y: int, draw: (int, int)) returns (raised: bool)
      requires Valid() && agar.Valid() && Microorganismo.Tirada(draw)
      modifies this, VivirTarget(x, y)
      ensures Valid()
      ensures misMos == old(misMos) && nMosVivos == old(nMosVivos) && Repr == old(Repr)
      ensures Rectangular() == old(Rectangular()) && Counted() == old(Counted())
      ensures raised <==> (maxX == 0 || maxY == 0 ||
                           (VivirSlot(x, y).Some? && misMos[x % maxX][y % maxY].Some? &&
                            BaseOf(kind) == English))
      ensures raised || VivirSlot(x, y).None? ==>
                movimientos == old(movimientos) && duplicaciones == old(duplicaciones)
      ensures !raised && VivirSlot(x, y).Some? ==>
                var (i, j) := (x % maxX, y % maxY);
                if misMos[i][j].None? then
                  movimientos == Set2(old(movimientos), i, j, Movimiento(0, 0)) &&
                  duplicaciones == Set2(old(duplicaciones), i, j, false)
                else
                  var a := misMos[i][j].value.es;
                  a.id == identidad && a.pos == Some(Posicion(i, j)) && a.ene == agar.Energia(i, j) &&
                  movimientos == Set2(old(movimientos), i, j, Microorganismo.Decision(kind, draw)) &&
                  duplicaciones == Set2(old(duplicaciones), i, j, kind == Mos.Aleatorio && agar.Energia(i, j) > 5000.0)
    {
      if maxX == 0 || maxY == 0 {
        return true;
      }
      var xi := x % maxX;
      var yi := y % maxY;
      match Index2(misMos, xi, yi) {
        case None =>
          return false;
        case Some((i, j)) =>
          match misMos[i][j] {
            case Some(mo) =>
              if mo.EnglishMo? {
                return true;
              }
              var a := mo.es;
              a.Actualizar(identidad, Posicion(i, j), agar.Energia(i, j));
              var mov := a.DecidirMovimiento(draw);
              movimientos := Set2(movimientos, i, j, mov);
              duplicaciones := Set2(duplicaciones, i, j, a.QuiereMitosis());
            case None =>
              movimientos := Set2(movimientos, i, j, Movimiento(0, 0));
              duplicaciones := Set2(duplicaciones, i, j, false);
          }
          return false;
      }
    }

    function Nombre(): (r: string)
      reads this
      requires Valid()
      ensures r == Mos.Nombre(kind)
    {
      Mos.Nombre(protoMo.Kind())
    }

    function Autor(): (r: string)
      reads this
      requires Valid()
      ensures r == Mos.Autor(kind)
    {
      Mos.Autor(protoMo.Kind())
    }
  }
}

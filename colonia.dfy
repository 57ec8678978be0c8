/** A colony (lib/colonia.py, bound to the name `Colony` that lib/petri.py
    imports): the agents of one class on a grid of slots, the movement each
    one asked for, whether it asked to divide, and a live counter. This is
    the English-named colony: it calls the agents' `update`, `move` and
    `mitosis`. */
module Colonia {
  import opened Py
  import opened Agar
  import opened Mos
  import opened Instancia
  import opened Rejilla
  import Microorg

  /** The identity table [0, 1, ..., n - 1]. */
  function Iota(n: nat): (r: seq<int>)
    ensures |r| == n && forall i :: 0 <= i < n ==> r[i] == i
  {
    seq(n, i => i)
  }

  /** The names `Colonia` defines (lib/colonia.py:16-133). Looking up any
      other name on a colony raises AttributeError. */
  const Methods: set<string> := {"__init__", "__del__", "n_alives", "mov", "moved", "duplicate",
                                 "kill", "create", "move", "live", "nombre", "autor"}

  class Colonia {
    const ident: int
    const maxX: nat
    const maxY: nat
    /** The class the colony instantiates. */
    const kind: Kind
    /** The instance consulted for the name and the author. */
    const protoMo: Mo
    /** Traversal tables, left as the identity. */
    const xr: seq<int>
    const yr: seq<int>
    var nMoAlives: int
    var myMos: seq<seq<Option<Mo>>>
    var movs: seq<seq<Movimiento>>
    var dups: seq<seq<bool>>
    /** The English-based agents the colony has created. */
    ghost var Repr: set<Microorg.Microorganismo>

    /** Grid shapes (agent rows may only have shrunk), traversal tables, and
        every agent an instance of the colony's class, on that class's base,
        created by this colony. */
    ghost predicate Valid()
      reads this
    {
      GridOk(myMos) &&
      |movs| == maxX && (forall i :: 0 <= i < maxX ==> |movs[i]| == maxY) &&
      |dups| == maxX && (forall i :: 0 <= i < maxX ==> |dups[i]| == maxY) &&
      xr == Iota(maxX) && yr == Iota(maxY) &&
      protoMo.Kind() == kind
    }

    /** An agent grid of this colony: maxX rows of at most maxY slots. */
    ghost predicate GridOk(g: seq<seq<Option<Mo>>>)
      reads this
    {
      |g| == maxX && (forall i :: 0 <= i < maxX ==> |g[i]| <= maxY) &&
      (forall i, j :: 0 <= i < |g| && 0 <= j < |g[i]| && g[i][j].Some? ==> AgentOk(g[i][j].value))
    }

    /** Storing nothing, or an agent of this colony, keeps a grid well formed. */
    lemma GridOkSet(g: seq<seq<Option<Mo>>>, i: nat, j: nat, v: Option<Mo>)
      requires GridOk(g) && i < |g| && j < |g[i]|
      requires v.None? || AgentOk(v.value)
      ensures GridOk(Set2(g, i, j, v))
    {
    }

    ghost predicate AgentOk(m: Mo)
      reads this
    {
      m.Kind() == kind && (m.EnglishMo? <==> BaseOf(kind) == English) &&
      (m.EnglishMo? ==> m.en in Repr)
    }

    /** Every agent row still has its full length. */
    ghost predicate Rectangular()
      reads this
    {
      forall i :: 0 <= i < |myMos| ==> |myMos[i]| == maxY
    }

    /** The counter is the number of agents. */
    ghost predicate Counted()
      reads this
    {
      nMoAlives == Count(myMos)
    }

    /** An empty colony of class k on a 2 rad by 2 rad grid. */
    constructor(k: Kind, id: int, rad: nat)
      ensures ident == id && kind == k && maxX == 2 * rad && maxY == 2 * rad
      ensures Valid() && Rectangular() && Counted() && Repr == {}
      ensures nMoAlives == 0 && myMos == Empty(maxX, maxY)
      ensures forall i, j :: 0 <= i < maxX && 0 <= j < maxY ==> movs[i][j] == Movimiento(0, 0) && !dups[i][j]
    {
      ident, kind := id, k;
      maxX, maxY := 2 * rad, 2 * rad;
      nMoAlives := 0;
      myMos := Empty(2 * rad, 2 * rad);
      movs := seq(2 * rad, _ => seq(2 * rad, _ => Movimiento(0, 0)));
      dups := seq(2 * rad, _ => seq(2 * rad, _ => false));
      var proto := Nuevo(k);
      protoMo := proto;
      xr, yr := Iota(2 * rad), Iota(2 * rad);
      Repr := {};
      new;
      CountEmpty(myMos);
    }

    /** `n_alives`: the counter, which is the number of agents. */
    function NAlives(): (n: int)
      reads this
      ensures Counted() ==> n == Count(myMos)
    {
      nMoAlives
    }

    /** The cached movement at (x, y), (0, 0) off the grid. */
    function Mov(x: int, y: int): (m: Movimiento)
      reads this
      ensures Index2(movs, x, y).None? ==> m == Movimiento(0, 0)
      ensures 0 <= x < |movs| && 0 <= y < |movs[x]| ==> m == movs[x][y]
    {
      match Index2(movs, x, y)
      case None => Movimiento(0, 0)
      case Some((i, j)) => movs[i][j]
    }

    /** Whether the agent at (x, y) asked to move. */
    function Moved(x: int, y: int): (r: bool)
      reads this
      ensures r <==> Mov(x, y) != Movimiento(0, 0)
    {
      match Index2(movs, x, y)
      case None => false
      case Some((i, j)) => movs[i][j].dx != 0 || movs[i][j].dy != 0
    }

    /** Whether the agent at (x, y) asked to divide, False off the grid. */
    function Duplicate(x: int, y: int): (r: bool)
      reads this
      ensures Index2(dups, x, y).None? ==> !r
      ensures 0 <= x < |dups| && 0 <= y < |dups[x]| ==> r == dups[x][y]
    {
      match Index2(dups, x, y)
      case None => false
      case Some((i, j)) => dups[i][j]
    }

    /** A slot that an agent subscript reaches is also reachable in the
        movement and flag grids. */
    lemma CacheSlot(x: int, y: int)
      requires Valid() && Index2(myMos, x, y).Some?
      ensures Index2(movs, x, y).Some? && Index2(dups, x, y).Some?
      ensures Index2(movs, x, y).value.0 == Index2(myMos, x, y).value.0
      ensures Rectangular() ==> Index2(movs, x, y) == Index2(myMos, x, y) == Index2(dups, x, y)
    {
    }

    /** Places a new agent in an empty slot; an occupied slot or an
        IndexError leaves everything as it was. */
    method Create(x: int, y: int)
      requires Valid()
      modifies this
      ensures Valid() && movs == old(movs) && dups == old(dups)
      ensures |myMos| == |old(myMos)| && forall i :: 0 <= i < |myMos| ==> |myMos[i]| == |old(myMos)[i]|
      ensures var s := old(Index2(myMos, x, y));
        if s.Some? && old(myMos)[s.value.0][s.value.1].None? then
          var m := myMos[s.value.0][s.value.1];
          m.Some? && m.value.Kind() == kind &&
          (m.value.EnglishMo? ==> fresh(m.value.en)) &&
          myMos == Set2(old(myMos), s.value.0, s.value.1, m) &&
          nMoAlives == old(nMoAlives) + 1
        else
          myMos == old(myMos) && nMoAlives == old(nMoAlives)
      ensures old(Repr) <= Repr && fresh(Repr - old(Repr))
      ensures old(Rectangular()) ==> Rectangular()
      ensures old(Counted()) ==> Counted()
    {
      match Index2(myMos, x, y) {
        case None =>
        case Some((i, j)) =>
          if myMos[i][j].None? {
            var m := Nuevo(kind);
            CountUpdate(myMos, i, j, Some(m));
            if m.EnglishMo? {
              Repr := Repr + {m.en};
            }
            myMos := Set2(myMos, i, j, Some(m));
            nMoAlives := nMoAlives + 1;
          }
      }
    }

    /** The kill as written: `del` removes the slot and shortens the row,
        then the slot that y now reaches is cleared; if that subscript
        raises, the counter and caches stay as they were. */
    method KillAsWritten(x: int, y: int)
      requires Valid()
      modifies this
      ensures Valid() && Repr == old(Repr)
      ensures var s := old(Index2(myMos, x, y));
        if s.Some? && old(myMos)[s.value.0][s.value.1].Some? then
          var (row, ok) := DelThenClear(old(myMos)[s.value.0], y);
          var t := old(Index2(movs, x, y));
          myMos == old(myMos)[s.value.0 := row] &&
          t.Some? &&
          (ok ==> nMoAlives == old(nMoAlives) - 1 &&
                  movs == Set2(old(movs), t.value.0, t.value.1, Movimiento(0, 0)) &&
                  dups == Set2(old(dups), t.value.0, t.value.1, false)) &&
          (!ok ==> nMoAlives == old(nMoAlives) && movs == old(movs) && dups == old(dups))
        else
          myMos == old(myMos) && nMoAlives == old(nMoAlives) && movs == old(movs) && dups == old(dups)
    {
      match Index2(myMos, x, y) {
        case None =>
        case Some((i, j)) =>
          if myMos[i][j].Some? {
            CacheSlot(x, y);
            var (row, ok) := DelThenClear(myMos[i], y);
            myMos := myMos[i := row];
            if ok {
              nMoAlives := nMoAlives - 1;
              var (p, q) := Index2(movs, x, y).value;
              movs := Set2(movs, p, q, Movimiento(0, 0));
              dups := Set2(dups, p, q, false);
            }
          }
      }
    }

    /** The kill as evidently intended: the slot is cleared in place, the
        counter drops and the caches of the slot are reset. */
    method Kill(x: int, y: int)
      requires Valid()
      modifies this
      ensures Valid() && Repr == old(Repr)
      ensures var s := old(Index2(myMos, x, y));
        if s.Some? && old(myMos)[s.value.0][s.value.1].Some? then
          var t := old(Index2(movs, x, y));
          myMos == Set2(old(myMos), s.value.0, s.value.1, None) &&
          nMoAlives == old(nMoAlives) - 1 &&
          t.Some? &&
          movs == Set2(old(movs), t.value.0, t.value.1, Movimiento(0, 0)) &&
          dups == Set2(old(dups), t.value.0, t.value.1, false)
        else
          myMos == old(myMos) && nMoAlives == old(nMoAlives) && movs == old(movs) && dups == old(dups)
      ensures old(Rectangular()) ==> Rectangular()
      ensures old(Counted()) ==> Counted()
    {
      match Index2(myMos, x, y) {
        case None =>
        case Some((i, j)) =>
          if myMos[i][j].Some? {
            CacheSlot(x, y);
            CountUpdate(myMos, i, j, None);
            GridOkSet(myMos, i, j, None);
            myMos := Set2(myMos, i, j, None);
            nMoAlives := nMoAlives - 1;
            var (p, q) := Index2(movs, x, y).value;
            movs := Set2(movs, p, q, Movimiento(0, 0));
            dups := Set2(dups, p, q, false);
          }
      }
    }

    /** Moves the agent object from oldPos to newPos, empties oldPos and
        resets its caches; the counter is untouched, which is right when
        newPos was empty (Rejilla.CountMove). */
    method Move(oldPos: Posicion, newPos: Posicion)
      requires Valid()
      modifies this
      ensures Valid() && Repr == old(Repr) && nMoAlives == old(nMoAlives)
      ensures var s := old(Index2(myMos, oldPos.x, oldPos.y));
        var d := old(Index2(myMos, newPos.x, newPos.y));
        if s.Some? && d.Some? then
          var t := old(Index2(movs, oldPos.x, oldPos.y));
          myMos == Set2(Set2(old(myMos), d.value.0, d.value.1, old(myMos)[s.value.0][s.value.1]),
                        s.value.0, s.value.1, None) &&
          t.Some? &&
          movs == Set2(old(movs), t.value.0, t.value.1, Movimiento(0, 0)) &&
          dups == Set2(old(dups), t.value.0, t.value.1, false)
        else
          myMos == old(myMos) && movs == old(movs) && dups == old(dups)
      ensures old(Rectangular()) ==> Rectangular()
      ensures old(Rectangular()) && 0 <= oldPos.x < maxX && 0 <= oldPos.y < maxY &&
              0 <= newPos.x < maxX && 0 <= newPos.y < maxY ==>
                myMos == Set2(Set2(old(myMos), newPos.x, newPos.y, old(myMos)[oldPos.x][oldPos.y]), oldPos.x, oldPos.y, None)
    {
      match Index2(myMos, oldPos.x, oldPos.y) {
        case None =>
        case Some((i, j)) =>
          match Index2(myMos, newPos.x, newPos.y) {
            case None =>
            case Some((k, l)) =>
              CacheSlot(oldPos.x, oldPos.y);
              var m := myMos[i][j];
              GridOkSet(myMos, k, l, m);
              GridOkSet(Set2(myMos, k, l, m), i, j, None);
              myMos := Set2(Set2(myMos, k, l, m), i, j, None);
              var (p, q) := Index2(movs, oldPos.x, oldPos.y).value;
              movs := Set2(movs, p, q, Movimiento(0, 0));
              dups := Set2(dups, p, q, false);
          }
      }
    }

    /** `move` between two slots inside the grid: the agent object goes
        from oldPos to newPos and oldPos is emptied. */
    method MoveWithin(oldPos: Posicion, newPos: Posicion)
      requires Valid() && Rectangular()
      requires 0 <= oldPos.x < maxX && 0 <= oldPos.y < maxY && 0 <= newPos.x < maxX && 0 <= newPos.y < maxY
      modifies this
      ensures Valid() && Rectangular() && Repr == old(Repr) && nMoAlives == old(nMoAlives)
      ensures myMos == Set2(Set2(old(myMos), newPos.x, newPos.y, old(myMos)[oldPos.x][oldPos.y]), oldPos.x, oldPos.y, None)
    {
      Move(oldPos, newPos);
    }

    /** The slot `live(x, y)` acts on, for non-zero sizes: the coordinates
        reduced modulo the sizes, screened against the first row's length and
        passed through the traversal tables; None when the method returns
        early or the subscript raises IndexError. */
    ghost function LiveSlot(x: int, y: int): (r: Option<(nat, nat)>)
      reads this
      requires Valid() && maxX > 0 && maxY > 0
      ensures r.Some? ==> r.value.0 < |myMos| && r.value.1 < |myMos[r.value.0]|
    {
      var xi := x % maxX;
      var yi := y % maxY;
      if xi >= |myMos| || yi >= |myMos[0]| then None
      else Index2(myMos, xr[xi], yr[yi])
    }

    /** The agent `live(x, y)` may update: an English-based occupant of the
        slot it acts on. */
    ghost function LiveTarget(x: int, y: int): set<object>
      reads this
      requires Valid()
    {
      if maxX == 0 || maxY == 0 || LiveSlot(x, y).None? then {}
      else
        var (i, j) := LiveSlot(x, y).value;
        if myMos[i][j].Some? && myMos[i][j].value.EnglishMo? then {myMos[i][j].value.en} else {}
    }

    /** On a full-width grid, `live` acts on the cell it is given when that
        cell is on the grid, and the agent it may update is one the colony
        created. */
    lemma LiveSlotOnGrid(x: int, y: int)
      requires Valid() && Rectangular() && 0 <= x < maxX && 0 <= y < maxY
      ensures LiveSlot(x, y) == Some((x, y))
      ensures LiveTarget(x, y) <= Repr
    {
      ModUnique(x, 0, x, maxX);
      ModUnique(y, 0, y, maxY);
      assert LiveSlot(x, y) == Some((x, y)) by {
        assert |myMos[0]| == maxY && xr[x] == x && yr[y] == y;
        assert LiveSlot(x, y) == Index2(myMos, x, y);
      }
      if myMos[x][y].Some? {
        assert AgentOk(myMos[x][y].value);
      }
    }

    /** One life step of the agent at (x, y): it is told its colony, position
        and energy, asked for a movement and asked whether to divide. An empty
        slot gets its caches reset. `raised` reports the exceptions that
        escape: ZeroDivisionError on an empty grid, and AttributeError for an
        agent on the Spanish base, which has no `update`. */
    method Live(agar: Agar, x: int, y: int) returns (raised: bool)
      requires Valid() && agar.Valid()
      modifies this, LiveTarget(x, y)
      ensures Valid()
      ensures myMos == old(myMos) && nMoAlives == old(nMoAlives) && Repr == old(Repr)
      ensures Rectangular() == old(Rectangular()) && Counted() == old(Counted())
      ensures raised <==> (maxX == 0 || maxY == 0 ||
                           (LiveSlot(x, y).Some? && myMos[LiveSlot(x, y).value.0][LiveSlot(x, y).value.1].Some? &&
                            BaseOf(kind) == Spanish))
      ensures raised || LiveSlot(x, y).None? ==> movs == old(movs) && dups == old(dups)
      ensures !raised && LiveSlot(x, y).Some? ==>
                var (i, j) := LiveSlot(x, y).value;
                if myMos[i][j].None? then
                  movs == Set2(old(movs), i, j, Movimiento(0, 0)) && dups == Set2(old(dups), i, j, false)
                else
                  var a := myMos[i][j].value.en;
                  a.id == ident && a.pos == Some(Posicion(i, j)) && a.ene == agar.Energia(i, j) &&
                  movs == Set2(old(movs), i, j, Microorg.Decision(kind, agar, Posicion(i, j))) &&
                  dups == Set2(old(dups), i, j, kind == MOyy && agar.Energia(i, j) > 500.0)
    {
      if maxX == 0 || maxY == 0 {
        return true;
      }
      var xi := x % maxX;
      var yi := y % maxY;
      if xi >= |myMos| || yi >= |myMos[0]| {
        return false;
      }
      if xi >= |xr| || yi >= |yr| || xi < 0 || yi < 0 {
        return false;
      }
      var xrIdx := xr[xi];
      var yrIdx := yr[yi];
      match Index2(myMos, xrIdx, yrIdx) {
        case None =>
          return false;
        case Some((i, j)) =>
          assert LiveSlot(x, y) == Some((i, j));
          match myMos[i][j] {
            case Some(mo) =>
              if mo.SpanishMo? {
                return true;
              }
              LiveAgent(agar, i, j);
            case None =>
              movs := Set2(movs, i, j, Movimiento(0, 0));
              dups := Set2(dups, i, j, false);
          }
          return false;
      }
    }

    /** The English-based branch of `live` for the agent in slot (i, j): it
        is told its id, its place and the energy of its cell, then the
        movement it asks for and whether it asks to divide are cached. */
    method LiveAgent(agar: Agar, i: nat, j: nat)
      requires Valid() && agar.Valid() && i < |myMos| && j < |myMos[i]|
      requires myMos[i][j].Some? && myMos[i][j].value.EnglishMo?
      modifies this, myMos[i][j].value.en
      ensures Valid()
      ensures myMos == old(myMos) && nMoAlives == old(nMoAlives) && Repr == old(Repr)
      ensures var a := myMos[i][j].value.en;
        a.id == ident && a.pos == Some(Posicion(i, j)) && a.ene == agar.Energia(i, j) &&
        movs == Set2(old(movs), i, j, Microorg.Decision(kind, agar, Posicion(i, j))) &&
        dups == Set2(old(dups), i, j, kind == MOyy && agar.Energia(i, j) > 500.0)
    {
      var a := myMos[i][j].value.en;
      a.Update(ident, Posicion(i, j), agar.Energia(i, j));
      var mov := a.Move(agar);
      movs := Set2(movs, i, j, mov);
      dups := Set2(dups, i, j, a.Mitosis());
    }

    function Nombre(): (r: string)
      reads this
      requires Valid()
      ensures r == Mos.Nombre(kind)
    {
      Mos.Nombre(protoMo.Kind())
    }

    function Autor(): (r: string)
      reads this
      requires Valid()
      ensures r == Mos.Autor(kind)
    {
      Mos.Autor(protoMo.Kind())
    }

    /** Calling `m()` for a text method name: `nombre` and `autor` answer
        the class's name and author, and a name the class does not define
        raises AttributeError, which is None here. */
    function CallText(m: string): (r: Option<string>)
      reads this
      requires Valid()
      requires m == "nombre" || m == "autor" || m !in Methods
      ensures r.None? <==> m !in Methods
      ensures m == "nombre" ==> r == Some(Mos.Nombre(kind))
      ensures m == "autor" ==> r == Some(Mos.Autor(kind))
    {
      if m == "nombre" then Some(Nombre())
      else if m == "autor" then Some(Autor())
      else None
    }
  }
}

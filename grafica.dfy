/** The headless driver and the statistics of a competition
    (lib/grafica.py): the census of the field after every tick, the end
    test, the loop bounded by `max_iteraciones` and the result record. */
module Grafica {
  import opened Defs
  import opened Agar
  import opened Rejilla
  import opened Siembra
  import Petri

  /** `N = M = 2 * R`: the square the statistics scan. */
  const Side: nat := 2 * Radius

  /** `max_iteraciones` of `ejecutar_headless`. */
  const MaxIteraciones: nat := 10000

  /** Agents of colony id on cells (i, 0) .. (i, j - 1), as the occupancy
      accessor reads them. */
  function RowAlive(a: Agar, id: int, i: int, j: nat): nat
    reads a
    requires a.Valid()
  {
    if j == 0 then 0 else RowAlive(a, id, i, j - 1) + (if a.Ocupacion(i, j - 1) == id then 1 else 0)
  }

  /** Agents of colony id on rows 0 .. n - 1 of the scanned square. */
  function Alive(a: Agar, id: int, n: nat): nat
    reads a
    requires a.Valid()
  {
    if n == 0 then 0 else Alive(a, id, n - 1) + RowAlive(a, id, n - 1, Side)
  }

  /** Energy of the agents of colony id on cells (i, 0) .. (i, j - 1). */
  function RowEnergy(a: Agar, id: int, i: int, j: nat): real
    reads a
    requires a.Valid()
  {
    if j == 0 then 0.0 else RowEnergy(a, id, i, j - 1) + (if a.Ocupacion(i, j - 1) == id then a.Energia(i, j - 1) else 0.0)
  }

  /** Energy of the agents of colony id on rows 0 .. n - 1. */
  function Energy(a: Agar, id: int, n: nat): real
    reads a
    requires a.Valid()
  {
    if n == 0 then 0.0 else Energy(a, id, n - 1) + RowEnergy(a, id, n - 1, Side)
  }

  /** Nutrients read at (i, 0) .. (i, j - 1), drift offset included. */
  function RowNutrients(a: Agar, i: int, j: nat): real
    reads a
    requires a.Valid()
  {
    if j == 0 then 0.0 else RowNutrients(a, i, j - 1) + a.Nutrientes(i, j - 1)
  }

  /** Nutrients read on rows 0 .. n - 1. */
  function Nutrients(a: Agar, n: nat): real
    reads a
    requires a.Valid()
  {
    if n == 0 then 0.0 else Nutrients(a, n - 1) + RowNutrients(a, n - 1, Side)
  }

  /** The end test of `actualizar_estadisticas`: at most one colony has
      agents left, once more than ten ticks have passed. */
  function Ends(c1: nat, c2: nat, t: int): (b: bool)
    ensures b <==> t > 10 && (c1 == 0 || c2 == 0)
  {
    var vivas := (if c1 > 0 then 1 else 0) + (if c2 > 0 then 1 else 0);
    vivas <= 1 && t > 10
  }

  /** The record `resultado_competencia` returns; `timestamp` is the
      clock's reading, passed in. */
  datatype Resultado = Resultado(
    enfrentamiento: string, ganador: string, puntos: nat,
    col1Nombre: string, col2Nombre: string,
    col1Poblacion: nat, col2Poblacion: nat,
    col1Energia: real, col2Energia: real,
    duracion: int, timestamp: string, completada: bool)

  /** The draws of a tick are consistent: one mitosis order and one jitter
      sign per shuffle draw. */
  predicate TickOk(d: Petri.TickDraws)
  {
    |d.orders| == |d.shuffle| && |d.ups| == |d.shuffle|
  }

  /** Inside the field the occupancy count of a row is the census of that
      row of the field. */
  lemma {:induction false} RowAliveMarks(a: Agar, id: int, i: nat, j: nat)
    requires a.Valid() && i < a.mxX && j <= a.mxY
    ensures RowAlive(a, id, i, j) == CountRow(Marks(a.celdas, id)[i][..j])
  {
    var m := Marks(a.celdas, id)[i];
    if j > 0 {
      RowAliveMarks(a, id, i, j - 1);
      InGridReads(a, i, j - 1);
      assert m[..j][..j - 1] == m[..j - 1];
    }
  }

  /** The occupancy count of rows 0 .. n - 1 is the census of those rows. */
  lemma {:induction false} AliveMarks(a: Agar, id: int, n: nat)
    requires a.Valid() && a.mxX == Side && a.mxY == Side && n <= Side
    ensures Alive(a, id, n) == Count(Marks(a.celdas, id)[..n])
  {
    var m := Marks(a.celdas, id);
    if n > 0 {
      AliveMarks(a, id, n - 1);
      RowAliveMarks(a, id, n - 1, Side);
      assert m[n - 1][..Side] == m[n - 1];
      assert m[..n][..n - 1] == m[..n - 1];
    }
  }

  /** On a field of the scanned size the statistics count every agent of
      colony id exactly once: the scan is the census of the field. */
  lemma AliveIsCensus(a: Agar, id: int)
    requires a.Valid() && a.mxX == Side && a.mxY == Side
    ensures Alive(a, id, Side) == IdCount(a.celdas, id)
  {
    AliveMarks(a, id, Side);
    assert Marks(a.celdas, id)[..Side] == Marks(a.celdas, id);
  }

  /** On a dish of the scanned size the populations the statistics report
      are the colonies' own counters of living agents. */
  lemma StatsMatchColonies(p: Petri.Petri)
    requires p.Valid() && p.maxX == Side
    ensures forall c :: 0 <= c < NCol ==> Alive(p.agar, c + 1, Side) == p.colonies[c].NAlives()
  {
    p.ColonyCounts();
    AliveIsCensus(p.agar, 1);
    AliveIsCensus(p.agar, 2);
  }

  /** Nutrients are never negative on the engine's fields, so neither is
      any partial sum of the nutrients the scan reads. */
  lemma {:induction false} RowNutrientsNonNegative(a: Agar, i: int, j: nat)
    requires a.Valid()
    requires forall x, y :: 0 <= x < a.mxX && 0 <= y < a.mxY ==> a.celdas[x][y].nutrientes >= 0.0
    ensures RowNutrients(a, i, j) >= 0.0
  {
    if j > 0 {
      RowNutrientsNonNegative(a, i, j - 1);
      AccessorsInRange(a, i, j - 1);
    }
  }

  lemma {:induction false} NutrientsNonNegative(a: Agar, n: nat)
    requires a.Valid()
    requires forall x, y :: 0 <= x < a.mxX && 0 <= y < a.mxY ==> a.celdas[x][y].nutrientes >= 0.0
    ensures Nutrients(a, n) >= 0.0
  {
    if n > 0 {
      NutrientsNonNegative(a, n - 1);
      RowNutrientsNonNegative(a, n - 1, Side);
    }
  }

  /** The plotter's state, as the headless run uses it. */
  class Graficadora {
    var t: int
    var iniciado: bool
    var finCompetencia: bool
    var competenciaCompletada: bool
    var col1Vivos: nat
    var col2Vivos: nat
    var col1Energia: real
    var col2Energia: real
    var totalNutrientes: real
    var nombreCol1: string
    var nombreCol2: string
    var autorCol1: string
    var autorCol2: string

    /** `Graficadora.__init__`: the clock at zero, nothing counted, no end. */
    constructor ()
      ensures t == 0 && !iniciado && !finCompetencia && !competenciaCompletada
      ensures col1Vivos == 0 && col2Vivos == 0 && col1Energia == 0.0 && col2Energia == 0.0
      ensures totalNutrientes == 0.0
      ensures nombreCol1 == "" && nombreCol2 == "" && autorCol1 == "" && autorCol2 == ""
    {
      t, iniciado, finCompetencia, competenciaCompletada := 0, false, false, false;
      col1Vivos, col2Vivos, col1Energia, col2Energia := 0, 0, 0.0, 0.0;
      totalNutrientes := 0.0;
      nombreCol1, nombreCol2, autorCol1, autorCol2 := "", "", "", "";
    }

    /** The inner loop of `actualizar_estadisticas` over row i: the agents
        and energy of colonies 1 and 2 and the nutrients of the row. */
    static method ScanRow(a: Agar, i: int) returns (vivos1: nat, vivos2: nat, energia1: real, energia2: real, nutrientes: real)
      requires a.Valid()
      ensures vivos1 == RowAlive(a, 1, i, Side) && vivos2 == RowAlive(a, 2, i, Side)
      ensures energia1 == RowEnergy(a, 1, i, Side) && energia2 == RowEnergy(a, 2, i, Side)
      ensures nutrientes == RowNutrients(a, i, Side)
    {
      vivos1, vivos2, energia1, energia2, nutrientes := 0, 0, 0.0, 0.0, 0.0;
      for j := 0 to Side
        invariant vivos1 == RowAlive(a, 1, i, j) && vivos2 == RowAlive(a, 2, i, j)
        invariant energia1 == RowEnergy(a, 1, i, j) && energia2 == RowEnergy(a, 2, i, j)
        invariant nutrientes == RowNutrients(a, i, j)
      {
        if a.Ocupacion(i, j) != Vacio {
          var moId := a.Ocupacion(i, j);
          var energia := a.Energia(i, j);
          if moId == 1 {
            vivos1 := vivos1 + 1;
            energia1 := energia1 + energia;
          } else if moId == 2 {
            vivos2 := vivos2 + 1;
            energia2 := energia2 + energia;
          }
        }
        nutrientes := nutrientes + a.Nutrientes(i, j);
      }
    }

    /** The two loops of `actualizar_estadisticas`: the statistics of the
        2R by 2R square, row by row. */
    static method Scan(a: Agar) returns (vivos1: nat, vivos2: nat, energia1: real, energia2: real, nutrientes: real)
      requires a.Valid()
      ensures vivos1 == Alive(a, 1, Side) && vivos2 == Alive(a, 2, Side)
      ensures energia1 == Energy(a, 1, Side) && energia2 == Energy(a, 2, Side)
      ensures nutrientes == Nutrients(a, Side)
    {
      vivos1, vivos2, energia1, energia2, nutrientes := 0, 0, 0.0, 0.0, 0.0;
      for i := 0 to Side
        invariant vivos1 == Alive(a, 1, i) && vivos2 == Alive(a, 2, i)
        invariant energia1 == Energy(a, 1, i) && energia2 == Energy(a, 2, i)
        invariant nutrientes == Nutrients(a, i)
      {
        var v1, v2, e1, e2, n := ScanRow(a, i);
        vivos1, vivos2, energia1, energia2, nutrientes := vivos1 + v1, vivos2 + v2, energia1 + e1, energia2 + e2, nutrientes + n;
      }
    }

    /** `actualizar_estadisticas`: scans the 2R by 2R square of the field
        row by row, counting the agents and adding the energy of colonies 1
        and 2 and the nutrients under every cell; the competition ends
        (and is complete) once Ends holds, and an ended competition stays
        ended. */
    method ActualizarEstadisticas(a: Agar)
      requires a.Valid()
      modifies this
      ensures col1Vivos == Alive(a, 1, Side) && col2Vivos == Alive(a, 2, Side)
      ensures col1Energia == Energy(a, 1, Side) && col2Energia == Energy(a, 2, Side)
      ensures totalNutrientes == Nutrients(a, Side)
      ensures finCompetencia == (old(finCompetencia) || Ends(col1Vivos, col2Vivos, t))
      ensures competenciaCompletada == (old(competenciaCompletada) || Ends(col1Vivos, col2Vivos, t))
      ensures t == old(t) && iniciado == old(iniciado)
      ensures (nombreCol1, nombreCol2, autorCol1, autorCol2) == old((nombreCol1, nombreCol2, autorCol1, autorCol2))
    {
      var vivos1, vivos2, energia1, energia2, nutrientes := Scan(a);
      Registrar(vivos1, vivos2, energia1, energia2, nutrientes);
    }

    /** The tail of `actualizar_estadisticas`: the statistics are stored,
        and the competition ends (and is complete) once Ends holds. */
    method Registrar(vivos1: nat, vivos2: nat, energia1: real, energia2: real, nutrientes: real)
      modifies this
      ensures (col1Vivos, col2Vivos, col1Energia, col2Energia) == (vivos1, vivos2, energia1, energia2)
      ensures totalNutrientes == nutrientes
      ensures finCompetencia == (old(finCompetencia) || Ends(vivos1, vivos2, t))
      ensures competenciaCompletada == (old(competenciaCompletada) || Ends(vivos1, vivos2, t))
      ensures t == old(t) && iniciado == old(iniciado)
      ensures (nombreCol1, nombreCol2, autorCol1, autorCol2) == old((nombreCol1, nombreCol2, autorCol1, autorCol2))
    {
      col1Vivos, col2Vivos, col1Energia, col2Energia := vivos1, vivos2, energia1, energia2;
      totalNutrientes := nutrientes;
      var coloniasVivas := 0;
      if col1Vivos > 0 {
        coloniasVivas := coloniasVivas + 1;
      }
      if col2Vivos > 0 {
        coloniasVivas := coloniasVivas + 1;
      }
      if coloniasVivas <= 1 && t > 10 {
        finCompetencia := true;
        competenciaCompletada := true;
      }
    }

    /** One pass of the loop of `ejecutar_headless`: a tick of the dish,
        the clock, and the statistics of the new field. An AttributeError
        raised inside the tick (`raised`) leaves the plotter untouched. */
    method Paso(p: Petri.Petri, d: Petri.TickDraws) returns (raised: bool)
      requires p.Valid() && TickOk(d)
      modifies this, p, p.agar, p.Cols(), p.Agents()
      ensures forall c :: 0 <= c < |p.colonies| ==>
                old(p.colonies[c].Repr) <= p.colonies[c].Repr && fresh(p.colonies[c].Repr - old(p.colonies[c].Repr))
      ensures raised ==> unchanged(this)
      ensures !raised ==> p.Valid() && t == old(t) + 1 && iniciado == old(iniciado)
      ensures !raised ==> col1Vivos == Alive(p.agar, 1, Side) && col2Vivos == Alive(p.agar, 2, Side)
      ensures !raised ==> finCompetencia == (old(finCompetencia) || Ends(col1Vivos, col2Vivos, t))
      ensures !raised ==> competenciaCompletada == (old(competenciaCompletada) || Ends(col1Vivos, col2Vivos, t))
    {
      raised := p.MoveColonies(d);
      if !raised {
        Avanzar(p.agar);
      }
    }

    /** The clock of the plotter advances and the statistics are taken. */
    method Avanzar(a: Agar)
      requires a.Valid()
      modifies this
      ensures t == old(t) + 1 && iniciado == old(iniciado)
      ensures col1Vivos == Alive(a, 1, Side) && col2Vivos == Alive(a, 2, Side)
      ensures finCompetencia == (old(finCompetencia) || Ends(col1Vivos, col2Vivos, t))
      ensures competenciaCompletada == (old(competenciaCompletada) || Ends(col1Vivos, col2Vivos, t))
    {
      t := t + 1;
      ActualizarEstadisticas(a);
    }

    /** `ejecutar_headless`: while the competition has not ended and the
        clock is below `max_iteraciones`, one Paso with the k-th draws of
        `ticks`; an AttributeError raised inside a tick (`raised`) leaves
        the loop at once. The loop ends by the end test or at exactly
        `max_iteraciones` ticks; the statistics of a run that did a tick
        are the census of the dish (on a dish of the scanned size, the
        colonies' own counters: StatsMatchColonies). */
    method EjecutarHeadless(p: Petri.Petri, ticks: seq<Petri.TickDraws>) returns (raised: bool)
      requires p.Valid() && 0 <= t && |ticks| >= MaxIteraciones
      requires forall k :: 0 <= k < |ticks| ==> TickOk(ticks[k])
      modifies this, p, p.agar, p.Cols(), p.Agents()
      ensures iniciado && t >= old(t)
      ensures old(t) <= MaxIteraciones ==> t <= MaxIteraciones
      ensures raised || finCompetencia || t >= MaxIteraciones
      ensures finCompetencia && !old(finCompetencia) ==> competenciaCompletada && Ends(col1Vivos, col2Vivos, t)
      ensures competenciaCompletada == (old(competenciaCompletada) || (finCompetencia && !old(finCompetencia)))
      ensures !raised ==> p.Valid()
      ensures !raised && t > old(t) ==> col1Vivos == Alive(p.agar, 1, Side) && col2Vivos == Alive(p.agar, 2, Side)
    {
      iniciado := true;
      raised := false;
      var k := 0;
      while !finCompetencia && t < MaxIteraciones
        invariant p.Valid() && iniciado && t == old(t) + k && 0 <= k
        invariant old(t) <= MaxIteraciones ==> t <= MaxIteraciones
        invariant finCompetencia && !old(finCompetencia) ==> competenciaCompletada && Ends(col1Vivos, col2Vivos, t)
        invariant old(finCompetencia) ==> finCompetencia
        invariant competenciaCompletada == (old(competenciaCompletada) || (finCompetencia && !old(finCompetencia)))
        invariant t > old(t) ==> col1Vivos == Alive(p.agar, 1, Side) && col2Vivos == Alive(p.agar, 2, Side)
        invariant forall c :: 0 <= c < |p.colonies| ==>
                    old(p.colonies[c].Repr) <= p.colonies[c].Repr && fresh(p.colonies[c].Repr - old(p.colonies[c].Repr))
        decreases MaxIteraciones - t
      {
        raised := Paso(p, ticks[k]);
        if raised {
          return;
        }
        k := k + 1;
      }
    }

    /** `resultado_competencia`: the colony with strictly more agents wins
        and scores its population; equal populations are a draw ("Empate")
        worth no points. */
    function ResultadoCompetencia(timestamp: string): (r: Resultado)
      reads this
      ensures col1Vivos > col2Vivos ==> r.ganador == nombreCol1 && r.puntos == col1Vivos
      ensures col2Vivos > col1Vivos ==> r.ganador == nombreCol2 && r.puntos == col2Vivos
      ensures col1Vivos == col2Vivos ==> r.ganador == "Empate" && r.puntos == 0
      ensures r.enfrentamiento == nombreCol1 + " vs " + nombreCol2
      ensures (r.col1Nombre, r.col2Nombre, r.col1Poblacion, r.col2Poblacion) == (nombreCol1, nombreCol2, col1Vivos, col2Vivos)
      ensures (r.col1Energia, r.col2Energia, r.duracion, r.completada) == (col1Energia, col2Energia, t, competenciaCompletada)
    {
      var (ganador, puntos) :=
        if col1Vivos > col2Vivos then (nombreCol1, col1Vivos)
        else if col2Vivos > col1Vivos then (nombreCol2, col2Vivos)
        else ("Empate", 0);
      Resultado(nombreCol1 + " vs " + nombreCol2, ganador, puntos, nombreCol1, nombreCol2,
                col1Vivos, col2Vivos, col1Energia, col2Energia, t, timestamp, competenciaCompletada)
    }
  }
}

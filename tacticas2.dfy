/** Tacticas2 (mos/tacticas2.py): a priority chain over the 3x3
    neighbourhood -- eat, else kill, else join kin. The class keeps the
    agent's row and column (mi_f, mi_c) and reads the field transposed:
    rows go through the first accessor argument. */
module Tacticas2 {
  import opened Py
  import opened Defs
  import opened Agar

  function Nombre(): string { "Tacticas2" }

  function Autor(): string { "Compu2" }

  /** Relative (row, column) of neighbour number num: row-major over the
      3x3 block, 4 being the agent's own cell; any other number stays. */
  function NumVecinoAMovimiento(num: int): (r: (int, int))
    ensures !(0 <= num < 9) ==> r == (0, 0)
    ensures -1 <= r.0 <= 1 && -1 <= r.1 <= 1
  {
    var moves := [(-1, -1), (-1, 0), (-1, 1),
                  (0, -1),  (0, 0),  (0, 1),
                  (1, -1),  (1, 0),  (1, 1)];
    if 0 <= num < |moves| then moves[num] else (0, 0)
  }

  /** The table is the row-major numbering of the 3x3 block. */
  lemma NumVecinoDivMod(num: int)
    requires 0 <= num < 9
    ensures NumVecinoAMovimiento(num) == (num / 3 - 1, num % 3 - 1)
  {
  }

  /** Neighbour number of the relative (row, column) offset. */
  lemma NumVecinoIndex(dF: int, dC: int)
    requires -1 <= dF <= 1 && -1 <= dC <= 1
    ensures 0 <= 3 * (dF + 1) + (dC + 1) < 9
    ensures NumVecinoAMovimiento(3 * (dF + 1) + (dC + 1)) == (dF, dC)
  {
  }

  /** Eligible entries of a neighbourhood scan. */
  function Libres(ids: seq<int>): (e: seq<bool>)
    ensures |e| == |ids|
    ensures forall k :: 0 <= k < |ids| ==> (e[k] <==> ids[k] == Vacio)
  {
    seq(|ids|, k requires 0 <= k < |ids| => ids[k] == Vacio)
  }

  /** Neighbours (not the own cell) of the own colony. */
  function Parientes(ids: seq<int>): (e: seq<bool>)
    requires |ids| == 9
    ensures |e| == 9
    ensures forall k :: 0 <= k < 9 ==> (e[k] <==> ids[k] == ids[4] && k != 4)
  {
    seq(9, k requires 0 <= k < 9 => ids[k] == ids[4] && k != 4)
  }

  /** State of the running maximum used by comer and reproducir: whether a
      candidate was found, its index and the value to beat, which starts at
      0.0. */
  datatype Pick = Pick(found: bool, idx: nat, best: real)

  /** Running maximum after the first k entries: an eligible entry strictly
      above the value to beat replaces it. */
  function Scan(elig: seq<bool>, v: seq<real>, k: nat): (p: Pick)
    requires |elig| == |v| && k <= |v|
    ensures p.found ==> p.idx < k
  {
    if k == 0 then Pick(false, 0, 0.0)
    else
      var p := Scan(elig, v, k - 1);
      if elig[k - 1] && v[k - 1] > p.best then Pick(true, k - 1, v[k - 1]) else p
  }

  /** The scan finds something iff some eligible entry is positive; what it
      finds is an eligible entry holding the largest eligible value, the first
      one in index order. */
  lemma {:induction false} ScanSpec(elig: seq<bool>, v: seq<real>, k: nat)
    requires |elig| == |v| && k <= |v|
    ensures Scan(elig, v, k).found <==> exists j :: 0 <= j < k && elig[j] && v[j] > 0.0
    ensures !Scan(elig, v, k).found ==> Scan(elig, v, k).best == 0.0
    ensures Scan(elig, v, k).found ==>
              var p := Scan(elig, v, k);
              elig[p.idx] && v[p.idx] == p.best && p.best > 0.0 &&
              (forall j :: 0 <= j < k && elig[j] ==> v[j] <= p.best) &&
              (forall j :: 0 <= j < p.idx && elig[j] ==> v[j] < p.best)
  {
    if k > 0 {
      ScanSpec(elig, v, k - 1);
      var p := Scan(elig, v, k - 1);
      if p.found {
        assert forall j :: 0 <= j < k - 1 && elig[j] ==> v[j] <= p.best;
      }
    }
  }

  /** First neighbour of another colony with less energy than the agent. */
  function Presa(ids: seq<int>, ens: seq<real>, k: nat): (r: Option<nat>)
    requires |ids| == 9 && |ens| == 9 && k <= 9
    ensures r.Some? ==> k <= r.value < 9
    decreases 9 - k
  {
    if k == 9 then None
    else if ids[k] != ids[4] && ids[k] != Vacio && ens[k] < ens[4] then Some(k)
    else Presa(ids, ens, k + 1)
  }

  /** A prey exists iff some neighbour qualifies, and the one chosen is the
      first that does. */
  lemma {:induction false} PresaSpec(ids: seq<int>, ens: seq<real>, k: nat)
    requires |ids| == 9 && |ens| == 9 && k <= 9
    ensures Presa(ids, ens, k).None? <==>
              forall j :: k <= j < 9 ==> !(ids[j] != ids[4] && ids[j] != Vacio && ens[j] < ens[4])
    ensures Presa(ids, ens, k).Some? ==>
              var j := Presa(ids, ens, k).value;
              ids[j] != ids[4] && ids[j] != Vacio && ens[j] < ens[4] &&
              forall i :: k <= i < j ==> !(ids[i] != ids[4] && ids[i] != Vacio && ens[i] < ens[4])
    decreases 9 - k
  {
    if k < 9 {
      PresaSpec(ids, ens, k + 1);
    }
  }

  /** The chain: eat if an empty neighbour has food, else kill a weaker
      stranger, else go towards the strongest kin, else stay. Result is a
      (row, column) offset. */
  function Estrategia(ids: seq<int>, ens: seq<real>, nut: seq<real>): (r: (int, int))
    requires |ids| == 9 && |ens| == 9 && |nut| == 9
    ensures -1 <= r.0 <= 1 && -1 <= r.1 <= 1
  {
    var comer := Scan(Libres(ids), nut, 9);
    if comer.found then NumVecinoAMovimiento(comer.idx)
    else
      var presa := Presa(ids, ens, 0);
      if presa.Some? then NumVecinoAMovimiento(presa.value)
      else
        var pariente := Scan(Parientes(ids), ens, 9);
        if pariente.found then NumVecinoAMovimiento(pariente.idx)
        else (0, 0)
  }

  /** What the chain promises: food first (the richest empty neighbour, first
      in row-major order); failing that, a weaker stranger; failing that, the
      strongest kin; staying only when none of the three applies. */
  lemma EstrategiaSpec(ids: seq<int>, ens: seq<real>, nut: seq<real>)
    requires |ids| == 9 && |ens| == 9 && |nut| == 9
    ensures var r := Estrategia(ids, ens, nut);
      (exists j :: 0 <= j < 9 && ids[j] == Vacio && nut[j] > 0.0) ==>
        exists j :: 0 <= j < 9 && ids[j] == Vacio && r == NumVecinoAMovimiento(j) &&
          (forall i :: 0 <= i < 9 && ids[i] == Vacio ==> nut[i] <= nut[j]) &&
          (forall i :: 0 <= i < j && ids[i] == Vacio ==> nut[i] < nut[j])
    ensures var r := Estrategia(ids, ens, nut);
      (forall j :: 0 <= j < 9 && ids[j] == Vacio ==> nut[j] <= 0.0) &&
      (exists j :: 0 <= j < 9 && ids[j] != ids[4] && ids[j] != Vacio && ens[j] < ens[4]) ==>
        exists j :: 0 <= j < 9 && ids[j] != ids[4] && ids[j] != Vacio && ens[j] < ens[4] &&
          r == NumVecinoAMovimiento(j)
    ensures var r := Estrategia(ids, ens, nut);
      (forall j :: 0 <= j < 9 && ids[j] == Vacio ==> nut[j] <= 0.0) &&
      (forall j :: 0 <= j < 9 ==> !(ids[j] != ids[4] && ids[j] != Vacio && ens[j] < ens[4])) &&
      (forall j :: 0 <= j < 9 && j != 4 && ids[j] == ids[4] ==> ens[j] <= 0.0) ==>
        r == (0, 0)
  {
    ScanSpec(Libres(ids), nut, 9);
    PresaSpec(ids, ens, 0);
    ScanSpec(Parientes(ids), ens, 9);
  }

  /** Same-colony cells counted in rows [0, f) of a census, each row covering
      columns [0, w). */
  function Censo(agar: Agar, id: int, own: bool, h: nat, w: nat): (n: nat)
    reads agar
    requires agar.Valid()
  {
    if h == 0 then 0 else Censo(agar, id, own, h - 1, w) + CensoFila(agar, id, own, h - 1, w)
  }

  /** Cells (f, c) with c < w holding the given id (own) or another
      non-empty id (not own). */
  function CensoFila(agar: Agar, id: int, own: bool, f: int, w: nat): (n: nat)
    reads agar
    requires agar.Valid()
  {
    if w == 0 then 0
    else
      var o := agar.Ocupacion(f, w - 1);
      CensoFila(agar, id, own, f, w - 1) + (if (own && o == id) || (!own && o != id && o != Vacio) then 1 else 0)
  }

  /** Occupied cells among rows [0, h), columns [0, w). */
  function Ocupadas(agar: Agar, h: nat, w: nat): (n: nat)
    reads agar
    requires agar.Valid()
  {
    if h == 0 then 0 else Ocupadas(agar, h - 1, w) + OcupadasFila(agar, h - 1, w)
  }

  function OcupadasFila(agar: Agar, f: int, w: nat): (n: nat)
    reads agar
    requires agar.Valid()
  {
    if w == 0 then 0 else OcupadasFila(agar, f, w - 1) + (if agar.Ocupacion(f, w - 1) != Vacio then 1 else 0)
  }

  /** Own and other cells together are exactly the occupied ones, for an own
      id that is not VACIO. */
  lemma {:induction false} CensoParticion(agar: Agar, id: int, h: nat, w: nat)
    requires agar.Valid() && id != Vacio
    ensures Censo(agar, id, true, h, w) + Censo(agar, id, false, h, w) == Ocupadas(agar, h, w)
  {
    if h > 0 {
      CensoParticion(agar, id, h - 1, w);
      FilaParticion(agar, id, h - 1, w);
    }
  }

  lemma {:induction false} FilaParticion(agar: Agar, id: int, f: int, w: nat)
    requires agar.Valid() && id != Vacio
    ensures CensoFila(agar, id, true, f, w) + CensoFila(agar, id, false, f, w) == OcupadasFila(agar, f, w)
  {
    if w > 0 {
      FilaParticion(agar, id, f, w - 1);
    }
  }

  /** Occupation of the nine neighbours of row f, column c, row-major. */
  function VecIds(agar: Agar, f: int, c: int): (s: seq<int>)
    reads agar
    requires agar.Valid()
    ensures |s| == 9
  {
    seq(9, k requires 0 <= k < 9 && agar.Valid() reads agar =>
      agar.Ocupacion(f + NumVecinoAMovimiento(k).0, c + NumVecinoAMovimiento(k).1))
  }

  /** Energies of the nine neighbours of row f, column c, row-major. */
  function VecEns(agar: Agar, f: int, c: int): (s: seq<real>)
    reads agar
    requires agar.Valid()
    ensures |s| == 9
  {
    seq(9, k requires 0 <= k < 9 && agar.Valid() reads agar =>
      agar.Energia(f + NumVecinoAMovimiento(k).0, c + NumVecinoAMovimiento(k).1))
  }

  /** Nutrients of the nine neighbours of row f, column c, row-major. */
  function VecNut(agar: Agar, f: int, c: int): (s: seq<real>)
    reads agar
    requires agar.Valid()
    ensures |s| == 9
  {
    seq(9, k requires 0 <= k < 9 && agar.Valid() reads agar =>
      agar.Nutrientes(f + NumVecinoAMovimiento(k).0, c + NumVecinoAMovimiento(k).1))
  }

  /** Entry k of the neighbourhood views is the field read at the offset
      that the table gives for k, row first. */
  lemma VecAt(agar: Agar, f: int, c: int, k: int)
    requires agar.Valid() && 0 <= k < 9
    ensures var (dF, dC) := NumVecinoAMovimiento(k);
      VecIds(agar, f, c)[k] == agar.Ocupacion(f + dF, c + dC) &&
      VecEns(agar, f, c)[k] == agar.Energia(f + dF, c + dC) &&
      VecNut(agar, f, c)[k] == agar.Nutrientes(f + dF, c + dC)
  {
  }

  /** Entry 3 * (dF + 1) + (dC + 1) of the views is the field read at the
      offset (dF, dC). */
  lemma VecAtOffset(agar: Agar, f: int, c: int, dF: int, dC: int)
    requires agar.Valid() && -1 <= dF <= 1 && -1 <= dC <= 1
    ensures 0 <= 3 * (dF + 1) + (dC + 1) < 9
    ensures var k := 3 * (dF + 1) + (dC + 1);
      VecIds(agar, f, c)[k] == agar.Ocupacion(f + dF, c + dC) &&
      VecEns(agar, f, c)[k] == agar.Energia(f + dF, c + dC) &&
      VecNut(agar, f, c)[k] == agar.Nutrientes(f + dF, c + dC)
  {
    NumVecinoIndex(dF, dC);
    VecAt(agar, f, c, 3 * (dF + 1) + (dC + 1));
  }

  /** The agent: the fields of the Spanish base class plus its own row and
      column. */
  class Tacticas2 {
    var id: int
    var pos: Option<Posicion>
    var ene: real
    var miF: int
    var miC: int

    constructor()
      ensures id == 0 && pos == None && ene == 0.0 && miF == 0 && miC == 0
    {
      id, pos, ene := 0, None, 0.0;
      miF, miC := 0, 0;
    }

    /** Stores the position transposed: row from y, column from x. */
    method DondeEstoy(p: Posicion)
      modifies this
      ensures miF == p.y && miC == p.x
      ensures id == old(id) && pos == old(pos) && ene == old(ene)
    {
      miF := p.y;
      miC := p.x;
    }

    /** Occupation, energy and nutrients of the nine neighbours, row-major,
        read at (row, column) in the field's first and second coordinate. */
    method VerVecindario(agar: Agar) returns (ids: seq<int>, ens: seq<real>, nut: seq<real>)
      requires agar.Valid()
      ensures ids == VecIds(agar, miF, miC)
      ensures ens == VecEns(agar, miF, miC)
      ensures nut == VecNut(agar, miF, miC)
    {
      ghost var vIds, vEns, vNut := VecIds(agar, miF, miC), VecEns(agar, miF, miC), VecNut(agar, miF, miC);
      ids, ens, nut := [], [], [];
      var dF := -1;
      while dF < 2
        invariant -1 <= dF <= 2
        invariant |ids| == |ens| == |nut| == 3 * (dF + 1)
        invariant forall k :: 0 <= k < |ids| ==> ids[k] == vIds[k] && ens[k] == vEns[k] && nut[k] == vNut[k]
      {
        var dC := -1;
        while dC < 2
          invariant -1 <= dC <= 2
          invariant |ids| == |ens| == |nut| == 3 * (dF + 1) + (dC + 1)
          invariant forall k :: 0 <= k < |ids| ==> ids[k] == vIds[k] && ens[k] == vEns[k] && nut[k] == vNut[k]
        {
          VecAtOffset(agar, miF, miC, dF, dC);
          ids := ids + [agar.Ocupacion(miF + dF, miC + dC)];
          ens := ens + [agar.Energia(miF + dF, miC + dC)];
          nut := nut + [agar.Nutrientes(miF + dF, miC + dC)];
          dC := dC + 1;
        }
        dF := dF + 1;
      }
    }

    /** Counts own cells and other occupied cells, rows over the field's
        height and columns over its width, both read transposed. */
    method ContarVivos(agar: Agar) returns (propios: nat, otros: nat)
      requires agar.Valid()
      ensures propios == Censo(agar, id, true, agar.MaxY(), agar.MaxX())
      ensures otros == Censo(agar, id, false, agar.MaxY(), agar.MaxX())
    {
      var maxF := agar.MaxY();
      var maxC := agar.MaxX();
      propios, otros := 0, 0;
      var f := 0;
      while f < maxF
        invariant 0 <= f <= maxF
        invariant propios == Censo(agar, id, true, f, maxC)
        invariant otros == Censo(agar, id, false, f, maxC)
      {
        var c := 0;
        while c < maxC
          invariant 0 <= c <= maxC
          invariant propios == Censo(agar, id, true, f, maxC) + CensoFila(agar, id, true, f, c)
          invariant otros == Censo(agar, id, false, f, maxC) + CensoFila(agar, id, false, f, c)
        {
          if agar.Ocupacion(f, c) == id {
            propios := propios + 1;
          } else if agar.Ocupacion(f, c) != Vacio {
            otros := otros + 1;
          }
          c := c + 1;
        }
        f := f + 1;
      }
    }

    /** Moves towards the first weaker neighbour of another colony. */
    method Matar(ids: seq<int>, ens: seq<real>) returns (encontro: bool, movF: int, movC: int)
      requires |ids| == 9 && |ens| == 9
      ensures encontro <==> Presa(ids, ens, 0).Some?
      ensures encontro ==> (movF, movC) == NumVecinoAMovimiento(Presa(ids, ens, 0).value)
      ensures !encontro ==> movF == 0 && movC == 0
    {
      movF, movC := 0, 0;
      encontro := false;
      var vec := 0;
      while vec < 9
        invariant 0 <= vec <= 9
        invariant !encontro
        invariant Presa(ids, ens, 0) == Presa(ids, ens, vec)
      {
        if ids[vec] != ids[4] && ids[vec] != Vacio && ens[vec] < ens[4] {
          movF, movC := NumVecinoAMovimiento(vec).0, NumVecinoAMovimiento(vec).1;
          encontro := true;
          break;
        }
        vec := vec + 1;
      }
    }

    /** Moves towards the richest empty neighbour, if its food is positive. */
    method Comer(ids: seq<int>, nut: seq<real>) returns (encontro: bool, movF: int, movC: int)
      requires |ids| == 9 && |nut| == 9
      ensures encontro == Scan(Libres(ids), nut, 9).found
      ensures encontro ==> (movF, movC) == NumVecinoAMovimiento(Scan(Libres(ids), nut, 9).idx)
      ensures !encontro ==> movF == 0 && movC == 0
    {
      movF, movC := 0, 0;
      var nutrienteMax := 0.0;
      encontro := false;
      ghost var idx := 0;
      for vec := 0 to 9
        invariant Scan(Libres(ids), nut, vec) == Pick(encontro, idx, nutrienteMax)
        invariant encontro ==> (movF, movC) == NumVecinoAMovimiento(idx)
        invariant !encontro ==> movF == 0 && movC == 0
      {
        if ids[vec] == Vacio && nut[vec] > nutrienteMax {
          movF, movC := NumVecinoAMovimiento(vec).0, NumVecinoAMovimiento(vec).1;
          nutrienteMax := nut[vec];
          encontro := true;
          idx := vec;
        }
      }
    }

    /** Moves towards the strongest neighbour of the own colony, if its
        energy is positive. */
    method Reproducir(ids: seq<int>, ens: seq<real>) returns (encontro: bool, movF: int, movC: int)
      requires |ids| == 9 && |ens| == 9
      ensures encontro == Scan(Parientes(ids), ens, 9).found
      ensures encontro ==> (movF, movC) == NumVecinoAMovimiento(Scan(Parientes(ids), ens, 9).idx)
      ensures !encontro ==> movF == 0 && movC == 0
    {
      movF, movC := 0, 0;
      var energiaMax := 0.0;
      encontro := false;
      ghost var idx := 0;
      for vec := 0 to 9
        invariant Scan(Parientes(ids), ens, vec) == Pick(encontro, idx, energiaMax)
        invariant encontro ==> (movF, movC) == NumVecinoAMovimiento(idx)
        invariant !encontro ==> movF == 0 && movC == 0
      {
        if ids[vec] == ids[4] && vec != 4 && ens[vec] > energiaMax {
          movF, movC := NumVecinoAMovimiento(vec).0, NumVecinoAMovimiento(vec).1;
          energiaMax := ens[vec];
          encontro := true;
          idx := vec;
        }
      }
    }

    /** Records the position, looks around and writes the chain's choice:
        column offset to dx, row offset to dy. */
    method Move(agar: Agar) returns (mov: Movimiento)
      requires agar.Valid() && pos.Some?
      modifies this
      ensures id == old(id) && pos == old(pos) && ene == old(ene)
      ensures miF == old(pos).value.y && miC == old(pos).value.x
      ensures (mov.dy, mov.dx) ==
                Estrategia(VecIds(agar, miF, miC), VecEns(agar, miF, miC), VecNut(agar, miF, miC))
    {
      DondeEstoy(pos.value);
      var ids, ens, nut := VerVecindario(agar);
      var encontro, movF, movC := Comer(ids, nut);
      if !encontro {
        encontro, movF, movC := Matar(ids, ens);
        if !encontro {
          encontro, movF, movC := Reproducir(ids, ens);
        }
      }
      mov := Movimiento(movC, movF);
    }

    /** Reproduces above 500 units of energy. */
    function Mitosis(): (r: bool)
      reads this
      ensures r <==> ene > 500.0
    {
      ene > 500.0
    }
  }
}

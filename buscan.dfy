/** BuscaN (mos/buscan.py): a greedy nutrient climber over the 3x3
    neighbourhood. The class extends the Spanish base class but overrides
    the English names. */
module BuscaN {
  import opened Agar

  function Nombre(): string { "Busca Nutrientes" }

  function Autor(): string { "Compu2" }

  /** Offset visited at step k of the scan: x outer, y inner. Step 4 is the
      agent's own cell. */
  function ScanOffset(k: int): (int, int)
  {
    (k / 3 - 1, k % 3 - 1)
  }

  /** Nutrients under the nine offsets, in scan order. */
  function Seen(agar: Agar, pos: Posicion): (s: seq<real>)
    reads agar
    requires agar.Valid()
    ensures |s| == 9
  {
    seq(9, k requires 0 <= k < 9 && agar.Valid() reads agar => agar.Nutrientes(pos.x + ScanOffset(k).0, pos.y + ScanOffset(k).1))
  }

  /** Scan step holding the running maximum after the first k steps. It
      starts at the agent's own cell and moves only to a strictly larger
      value. */
  function Best(s: seq<real>, k: nat): (b: nat)
    requires |s| == 9 && k <= 9
    ensures b < 9
  {
    if k == 0 then 4
    else
      var p := Best(s, k - 1);
      if s[k - 1] > s[p] then k - 1 else p
  }

  /** One scan step: the running maximum moves to step k exactly when s[k]
      is strictly larger. */
  lemma BestStep(s: seq<real>, k: nat)
    requires |s| == 9 && k < 9
    ensures Best(s, k + 1) == if s[k] > s[Best(s, k)] then k else Best(s, k)
  {
  }

  /** The running maximum dominates everything scanned and the own cell;
      when it left the own cell, it did so for the first value strictly
      above every earlier one and above the own cell. */
  lemma {:induction false} BestSpec(s: seq<real>, k: nat)
    requires |s| == 9 && k <= 9
    ensures forall j :: 0 <= j < k ==> s[j] <= s[Best(s, k)]
    ensures s[4] <= s[Best(s, k)]
    ensures Best(s, k) != 4 ==> s[4] < s[Best(s, k)] && Best(s, k) < k
    ensures Best(s, k) != 4 ==> forall j :: 0 <= j < Best(s, k) ==> s[j] < s[Best(s, k)]
  {
    if k > 0 {
      BestSpec(s, k - 1);
    }
  }

  /** The chosen offset is a maximum of the nine; the agent stays when its own
      cell is a maximum, and otherwise goes to the first maximum in scan
      order. */
  lemma BestChoice(s: seq<real>)
    requires |s| == 9
    ensures forall j :: 0 <= j < 9 ==> s[j] <= s[Best(s, 9)]
    ensures (forall j :: 0 <= j < 9 ==> s[j] <= s[4]) ==> Best(s, 9) == 4
    ensures (exists j :: 0 <= j < 9 && s[j] > s[4]) ==>
              Best(s, 9) != 4 && forall j :: 0 <= j < Best(s, 9) ==> s[j] < s[Best(s, 9)]
  {
    BestSpec(s, 9);
  }

  /** Nutrients under scan step 3 * (xRel + 1) + (yRel + 1). */
  lemma SeenAt(agar: Agar, pos: Posicion, xRel: int, yRel: int)
    requires agar.Valid()
    requires -1 <= xRel <= 1 && -1 <= yRel <= 1
    ensures 0 <= 3 * (xRel + 1) + (yRel + 1) < 9
    ensures Seen(agar, pos)[3 * (xRel + 1) + (yRel + 1)] == agar.Nutrientes(pos.x + xRel, pos.y + yRel)
  {
    OffsetAt(xRel, yRel);
  }

  /** Scan step 3 * (xRel + 1) + (yRel + 1) visits the offset (xRel, yRel). */
  lemma OffsetAt(xRel: int, yRel: int)
    requires -1 <= xRel <= 1 && -1 <= yRel <= 1
    ensures ScanOffset(3 * (xRel + 1) + (yRel + 1)) == (xRel, yRel)
  {
    var k := 3 * (xRel + 1) + (yRel + 1);
    assert k / 3 == xRel + 1 && k % 3 == yRel + 1;
  }

  /** Writes the offset of the richest neighbour into the agent's movement:
      the nine cells are scanned x outer, y inner, and the running maximum
      moves only on a strictly larger value. */
  method Move(agar: Agar, pos: Posicion) returns (mov: Movimiento)
    requires agar.Valid()
    ensures (mov.dx, mov.dy) == ScanOffset(Best(Seen(agar, pos), 9))
  {
    ghost var s := Seen(agar, pos);
    var xMax, yMax := 0, 0;
    ghost var b := 4;
    var xRel := -1;
    while xRel < 2
      invariant -1 <= xRel <= 2
      invariant b == Best(s, 3 * (xRel + 1))
      invariant -1 <= xMax <= 1 && -1 <= yMax <= 1 && b == 3 * (xMax + 1) + (yMax + 1)
    {
      var yRel := -1;
      while yRel < 2
        invariant -1 <= yRel <= 2
        invariant b == Best(s, 3 * (xRel + 1) + (yRel + 1))
        invariant -1 <= xMax <= 1 && -1 <= yMax <= 1 && b == 3 * (xMax + 1) + (yMax + 1)
      {
        SeenAt(agar, pos, xRel, yRel);
        SeenAt(agar, pos, xMax, yMax);
        BestStep(s, 3 * (xRel + 1) + (yRel + 1));
        if agar.Nutrientes(pos.x + xRel, pos.y + yRel) > agar.Nutrientes(pos.x + xMax, pos.y + yMax) {
          xMax, yMax := xRel, yRel;
          b := 3 * (xRel + 1) + (yRel + 1);
        }
        yRel := yRel + 1;
      }
      xRel := xRel + 1;
    }
    mov := Movimiento(xMax, yMax);
    OffsetAt(xMax, yMax);
  }

  /** What the scan chooses: an offset of a richest neighbour; staying put
      whenever the own cell is among the richest; otherwise the first richest
      cell in scan order, which is strictly richer than the own cell. */
  lemma MoveChoice(agar: Agar, pos: Posicion)
    requires agar.Valid()
    ensures var (dx, dy) := ScanOffset(Best(Seen(agar, pos), 9));
      -1 <= dx <= 1 && -1 <= dy <= 1 &&
      (forall k :: 0 <= k < 9 ==> Seen(agar, pos)[k] <= agar.Nutrientes(pos.x + dx, pos.y + dy)) &&
      ((forall k :: 0 <= k < 9 ==> Seen(agar, pos)[k] <= agar.Nutrientes(pos.x, pos.y)) ==> dx == 0 && dy == 0) &&
      ((dx, dy) != (0, 0) ==>
         agar.Nutrientes(pos.x, pos.y) < agar.Nutrientes(pos.x + dx, pos.y + dy) &&
         forall k :: 0 <= k < 3 * (dx + 1) + (dy + 1) ==> Seen(agar, pos)[k] < agar.Nutrientes(pos.x + dx, pos.y + dy))
  {
    var s := Seen(agar, pos);
    BestChoice(s);
    var b := Best(s, 9);
    var (dx, dy) := ScanOffset(b);
    assert b / 3 == dx + 1 && b % 3 == dy + 1;
    assert b == 3 * (dx + 1) + (dy + 1);
    assert s[b] == agar.Nutrientes(pos.x + dx, pos.y + dy);
    assert s[4] == agar.Nutrientes(pos.x, pos.y);
  }

  /** Reproduces above 5000 units of energy. */
  function Mitosis(ene: real): (r: bool)
    ensures r <==> ene > 5000.0
  {
    ene > 5000.0
  }
}

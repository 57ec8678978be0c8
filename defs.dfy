/** Constants of the contest (lib/defs.py). Energies and nutrients are
    modelled as reals. */
module Defs {
  /** Occupant id of an empty cell. */
  const Vacio: int := 0
  /** Agents per colony at the start of a contest. */
  const MosInicial: nat := 50
  /** Relative maximum of the nutrient distributions. */
  const MaxNutri: real := 5000.0
  /** Energy of every agent placed at the start. */
  const EInicial: real := 1000.0
  /** Energy an agent pays on every tick. */
  const EVivir: real := 5.0
  /** Energy an agent pays on a tick in which it asked to move. */
  const EMoverse: real := 10.0
  /** Number of colonies in a contest. */
  const NCol: nat := 2
  /** Radius of the dish used by the statistics scan. */
  const Radius: int := 25
  /** Number of nutrient distributions. */
  const MaxDNutri: int := 6
}

/**
 * Choosing the mole's next cell by rejection sampling. The random source is
 * an input: the sequence of cells the sampler would draw, in order.
 */
module Relocation {
  import opened Coordinates

  predicate AllInGrid(draws: seq<Cell>) {
    forall i :: 0 <= i < |draws| ==> InGrid(draws[i])
  }

  /**
   * The index of the first draw that differs from `current`, or |draws|
   * when every draw equals it.
   */
  function FirstDifferent(current: Cell, draws: seq<Cell>): (k: nat)
    ensures k <= |draws|
    ensures forall j :: 0 <= j < k ==> draws[j] == current
    ensures k < |draws| ==> draws[k] != current
  {
    if draws == [] || draws[0] != current then 0
    else 1 + FirstDifferent(current, draws[1..])
  }

  /** Some draw differs from `current` exactly when FirstDifferent finds one. */
  lemma FirstDifferentFound(current: Cell, draws: seq<Cell>)
    ensures (exists j :: 0 <= j < |draws| && draws[j] != current) <==> FirstDifferent(current, draws) < |draws|
  {
  }

  /**
   * get_next_mole_grid_position: draw a cell, and keep drawing while the
   * draw equals `current`. Returns the accepted cell and the number of
   * draws taken (the accepted one included).
   */
  method GetNextMoleGridPosition(current: Cell, draws: seq<Cell>) returns (pos: Cell, used: nat)
    requires exists j :: 0 <= j < |draws| && draws[j] != current
    ensures 0 < used <= |draws| && pos == draws[used - 1]
    ensures used == FirstDifferent(current, draws) + 1
    ensures pos != current
    ensures AllInGrid(draws) ==> InGrid(pos)
  {
    ghost var k :| 0 <= k < |draws| && draws[k] != current;
    pos := draws[0];
    used := 1;
    while pos == current
      invariant 0 < used <= k + 1 && pos == draws[used - 1]
      invariant forall j :: 0 <= j < used - 1 ==> draws[j] == current
      decreases k + 1 - used
    {
      pos := draws[used];
      used := used + 1;
    }
  }
}

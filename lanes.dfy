/** The shape of the step grid: three instrument lanes of sixteen steps each. */
module Lanes {

  /** Steps per lane: one bar of sixteenth notes. */
  const StepCount: nat := 16

  /** The lane names in the order the rows are built, highest pitch first. */
  const LaneNames: seq<string> := ["hihat", "snare", "kick"]

  /** The `active` flags of the grid, one row per lane of LaneNames. */
  type Board = seq<seq<bool>>

  predicate WellFormedBoard(b: Board)
  {
    |b| == |LaneNames| && forall r :: 0 <= r < |b| ==> |b[r]| == StepCount
  }

  /** The board in which every cell is inactive (the grid as it is built). */
  function EmptyBoard(): (b: Board)
    ensures WellFormedBoard(b)
    ensures forall r, i :: 0 <= r < |LaneNames| && 0 <= i < StepCount ==> !b[r][i]
  {
    seq(|LaneNames|, _ => seq(StepCount, _ => false))
  }

  /** The board after one cell's `active` class is toggled. */
  function Toggle(b: Board, r: nat, i: nat): (b': Board)
    requires WellFormedBoard(b) && r < |LaneNames| && i < StepCount
    ensures WellFormedBoard(b')
    ensures b'[r][i] == !b[r][i]
    ensures forall rr, ii :: 0 <= rr < |LaneNames| && 0 <= ii < StepCount && (rr != r || ii != i) ==>
              b'[rr][ii] == b[rr][ii]
  {
    b[r := b[r][i := !b[r][i]]]
  }

  /** Toggling the same cell twice gives the board back. */
  lemma ToggleTwice(b: Board, r: nat, i: nat)
    requires WellFormedBoard(b) && r < |LaneNames| && i < StepCount
    ensures Toggle(Toggle(b, r, i), r, i) == b
  {
    var t := Toggle(Toggle(b, r, i), r, i);
    forall rr | 0 <= rr < |LaneNames| ensures t[rr] == b[rr] {
      assert |t[rr]| == |b[rr]|;
      forall ii | 0 <= ii < StepCount ensures t[rr][ii] == b[rr][ii] { }
    }
  }

  /** Two lane-by-step tables with the same entries are equal. */
  lemma SameCells<T>(b: seq<seq<T>>, b': seq<seq<T>>)
    requires |b| == |b'| == |LaneNames|
    requires forall r :: 0 <= r < |LaneNames| ==> |b[r]| == |b'[r]| == StepCount
    requires forall r, i :: 0 <= r < |LaneNames| && 0 <= i < StepCount ==> b[r][i] == b'[r][i]
    ensures b == b'
  {
    forall r | 0 <= r < |LaneNames| ensures b[r] == b'[r] {
      assert forall i :: 0 <= i < StepCount ==> b[r][i] == b'[r][i];
    }
  }
}

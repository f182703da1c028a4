/**
 * The simulator object: a plane of colours updated in place, the ant's
 * position and direction, and the run loop. Every mutating method is proved
 * to move the object's abstract state (Snapshot) exactly as the functions of
 * LangtonRules say.
 */
module Simulation {
  import opened LangtonRules
  import opened Pacing

  /** A new plane of `rows` rows of `columns` cells, all white. */
  method NewPlane(rows: nat, columns: nat) returns (plane: array2<Colour>)
    ensures fresh(plane) && plane.Length0 == rows && plane.Length1 == columns
    ensures forall i, j :: 0 <= i < rows && 0 <= j < columns ==> plane[i, j] == White
  {
    plane := new Colour[rows, columns]((_, _) => White);
  }

  class Simulator {
    const row: int
    const column: int
    /** Minimum time between two ticks, in nanoseconds. */
    const delta: int
    var plane: array2<Colour>
    /** The contents of `plane`, row by row. */
    ghost var cells: seq<seq<Colour>>
    var antPos: (int, int)
    /** One of the constants `North`, `West`, `South`, `East`; 4 is possible until the first step. */
    var antDirection: int

    /** The abstract state of the simulator. */
    ghost function Snapshot(): State
      reads this
    {
      State(row, column, cells, antPos, antDirection)
    }

    /** `cells` mirrors the array, and the abstract state is one the simulation can be in. */
    ghost predicate Valid()
      reads this, plane
    {
      plane.Length0 == row && plane.Length1 == column && LangtonRules.Valid(Snapshot())
      && forall i, j :: 0 <= i < row && 0 <= j < column ==> plane[i, j] == cells[i][j]
    }

    /**
     * A simulator with a `row` by `column` plane, all white, and the ant at
     * `antPos` heading `antDirection`; the position and the direction are the
     * values the Python program draws at random, from the same inclusive ranges.
     */
    constructor (row: int, column: int, fps: int, antPos: (int, int), antDirection: int)
      requires row >= 1 && column >= 1 && fps != 0
      requires 0 <= antPos.0 < row && 0 <= antPos.1 < column
      requires 0 <= antDirection <= 4
      ensures Valid() && fresh(plane)
      ensures Snapshot() == Initial(row, column, antPos, antDirection)
      ensures delta == Delta(fps)
    {
      this.antPos := antPos;
      this.antDirection := antDirection;
      this.row := row;
      this.column := column;
      delta := Delta(fps);
      var empty := NewPlane(row, column);
      plane := empty;
      cells := EmptyPlane(row, column);
    }

    /** Moves the ant one cell in its direction, wrapping around the plane; nothing else changes. */
    method MoveForward()
      requires Valid()
      modifies this`antPos
      ensures Valid()
      ensures Snapshot() == old(Snapshot()).(ant := Forward(old(antPos), antDirection, row, column))
    {
      var (r, c) := antPos;
      if antDirection == North {
        antPos := ((r - 1) % row, c);
      } else if antDirection == West {
        antPos := (r, (c - 1) % column);
      } else if antDirection == South {
        antPos := ((r + 1) % row, c);
      } else {
        antPos := (r, (c + 1) % column);
      }
      ForwardIsNeighbour((r, c), antDirection, row, column);
    }

    /**
     * One step: on a white cell paint it black and turn to (d-1) mod 4,
     * otherwise paint it white and turn to (d+1) mod 4; then move forward.
     */
    method NextPlane()
      requires Valid()
      modifies this`antPos, this`antDirection, this`cells, plane
      ensures Valid()
      ensures Snapshot() == Step(old(Snapshot()))
    {
      var (r, c) := antPos;
      if plane[r, c] == White {
        plane[r, c] := Black;
        antDirection := (antDirection - 1) % 4;
      } else {
        plane[r, c] := White;
        antDirection := (antDirection + 1) % 4;
      }
      cells := Put(cells, r, c, Flip(cells[r][c]));
      MoveForward();
    }

    /**
     * The run loop, fed the successive readings of the nanosecond clock. It
     * ticks exactly as Ticks says, and each tick advances the state by one
     * Step; drawing the frame before the step is not modelled. The loop ends
     * when the readings run out.
     */
    method Run(clock: seq<int>) returns (ticks: nat)
      requires Valid()
      modifies this`antPos, this`antDirection, this`cells, plane
      ensures Valid()
      ensures ticks == Ticks(clock, delta)
      ensures Snapshot() == StepN(old(Snapshot()), ticks)
    {
      ghost var start := Snapshot();
      var tic := 0;
      var k := 0;
      ticks := 0;
      while k < |clock|
        invariant 0 <= k <= |clock|
        invariant Valid()
        invariant ticks + TicksFrom(clock, k, tic, delta) == Ticks(clock, delta)
        invariant Snapshot() == StepN(start, ticks)
        decreases |clock| - k
      {
        var toc := clock[k];
        if tic == 0 {
          // No tick yet: read tic and tick at once.
          if k + 1 == |clock| {
            break;
          }
          tic := clock[k + 1];
          k := k + 2;
        } else if toc - tic < delta {
          // Less than delta since the last tick: wait.
          k := k + 1;
          continue;
        } else {
          k := k + 1;
        }
        // The draw of the current plane happens here and is not modelled.
        StepNSucc(start, ticks);
        NextPlane();
        ticks := ticks + 1;
        if k == |clock| {
          break;
        }
        tic := clock[k];
        k := k + 1;
      }
    }
  }
}

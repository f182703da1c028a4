/**
 * The two-colour Langton's ant as values: the plane, the ant and one step of
 * the simulation. The class in simulator.dfy is proved to follow these
 * definitions; the lemmas here state what one step and many steps do.
 */
module LangtonRules {

  /**
   * The value of a cell: the two colours the plane is ever written with, and
   * Other for any other value, which the step treats like black.
   */
  datatype Colour = White | Black | Other

  /** Directions are encoded 0 = North, 1 = West, 2 = South, 3 = East. */
  const North: int := 0
  const West: int := 1
  const South: int := 2
  const East: int := 3

  /** A plane of `rows` rows with `columns` cells each. */
  ghost predicate IsPlane(plane: seq<seq<Colour>>, rows: int, columns: int)
  {
    |plane| == rows && forall i :: 0 <= i < |plane| ==> |plane[i]| == columns
  }

  /** Every cell is white or black. */
  ghost predicate TwoColoured(plane: seq<seq<Colour>>)
  {
    forall i, j :: 0 <= i < |plane| && 0 <= j < |plane[i]| ==> plane[i][j] != Other
  }

  /** A freshly created plane: every cell white. */
  function EmptyPlane(rows: nat, columns: nat): seq<seq<Colour>>
  {
    seq(rows, _ => seq(columns, _ => White))
  }

  /** The plane with the cell at (r, c) overwritten by `v`. */
  function Put(plane: seq<seq<Colour>>, r: int, c: int, v: Colour): seq<seq<Colour>>
    requires 0 <= r < |plane| && 0 <= c < |plane[r]|
  {
    plane[r := plane[r][c := v]]
  }

  /** The whole simulation state: dimensions, plane, ant position and direction. */
  datatype State = State(rows: int, columns: int, plane: seq<seq<Colour>>, ant: (int, int), direction: int)

  /**
   * A state the simulator can be in: a non-empty plane of the stated size, the
   * ant on it, and a direction in 0..4 (the initial direction is drawn from the
   * inclusive range 0..4, so 4 is possible until the first step).
   */
  ghost predicate Valid(s: State)
  {
    s.rows >= 1 && s.columns >= 1 && IsPlane(s.plane, s.rows, s.columns)
    && 0 <= s.ant.0 < s.rows && 0 <= s.ant.1 < s.columns
    && 0 <= s.direction <= 4
  }

  /** The state right after construction. */
  function Initial(rows: nat, columns: nat, ant: (int, int), direction: int): State
  {
    State(rows, columns, EmptyPlane(rows, columns), ant, direction)
  }

  /** The colour a visited cell is overwritten with: white becomes black, anything else white. */
  function Flip(colour: Colour): (f: Colour)
    ensures f != colour && f != Other
  {
    if colour == White then Black else White
  }

  /**
   * The new direction: on a white cell the index goes down by one, on any
   * other cell up by one, modulo 4.
   */
  function Turn(direction: int, onWhite: bool): (d: int)
    ensures 0 <= d < 4
  {
    if onWhite then (direction - 1) % 4 else (direction + 1) % 4
  }

  /** One cell forward in `direction`, wrapping around the torus with a positive modulus. */
  function Forward(pos: (int, int), direction: int, rows: int, columns: int): (int, int)
    requires rows >= 1 && columns >= 1
  {
    if direction == North then ((pos.0 - 1) % rows, pos.1)
    else if direction == West then (pos.0, (pos.1 - 1) % columns)
    else if direction == South then ((pos.0 + 1) % rows, pos.1)
    else (pos.0, (pos.1 + 1) % columns)
  }

  /**
   * The neighbouring cell written out without `%`: the reference against which
   * Forward is proved.
   */
  function Neighbour(pos: (int, int), direction: int, rows: int, columns: int): (int, int)
  {
    var (r, c) := pos;
    if direction == North then (if r == 0 then rows - 1 else r - 1, c)
    else if direction == West then (r, if c == 0 then columns - 1 else c - 1)
    else if direction == South then (if r == rows - 1 then 0 else r + 1, c)
    else (r, if c == columns - 1 then 0 else c + 1)
  }

  /** One step: flip the ant's cell, turn, then move forward in the new direction. */
  function Step(s: State): (t: State)
    requires Valid(s)
    ensures Valid(t)
    ensures t.rows == s.rows && t.columns == s.columns
    ensures 0 <= t.direction < 4
  {
    var (r, c) := s.ant;
    var colour := s.plane[r][c];
    var direction := Turn(s.direction, colour == White);
    ForwardIsNeighbour(s.ant, direction, s.rows, s.columns);
    s.(plane := Put(s.plane, r, c, Flip(colour)),
       ant := Forward(s.ant, direction, s.rows, s.columns),
       direction := direction)
  }

  /** `n` steps in a row. */
  function StepN(s: State, n: nat): (t: State)
    requires Valid(s)
    ensures Valid(t)
    ensures t.rows == s.rows && t.columns == s.columns
    ensures n >= 1 ==> 0 <= t.direction < 4
    decreases n
  {
    if n == 0 then s else StepN(Step(s), n - 1)
  }

  /** One more step after n steps is n + 1 steps. */
  lemma {:induction false} StepNSucc(s: State, n: nat)
    requires Valid(s)
    ensures StepN(s, n + 1) == Step(StepN(s, n))
    decreases n
  {
    if n > 0 {
      StepNSucc(Step(s), n - 1);
    }
  }

  /** Number of black cells in one row. */
  function RowBlacks(row: seq<Colour>): (k: nat)
    ensures k <= |row|
  {
    if row == [] then 0 else (if row[0] == Black then 1 else 0) + RowBlacks(row[1..])
  }

  /** Number of black cells in the plane. */
  function Blacks(plane: seq<seq<Colour>>): nat
  {
    if plane == [] then 0 else RowBlacks(plane[0]) + Blacks(plane[1..])
  }

  // ---------------------------------------------------------------------
  // Moving forward

  /** `%` by a positive modulus leaves an in-range value alone. */
  lemma ModInRange(x: int, m: int)
    requires 0 <= x < m
    ensures x % m == x
  {
  }

  /** Stepping off the low edge wraps to the high edge, and off the high edge back to 0. */
  lemma ModWraps(m: int)
    requires m >= 1
    ensures (-1) % m == m - 1
    ensures m % m == 0
  {
    assert (-1) == (-1) * m + (m - 1);
    assert m == 1 * m + 0;
  }

  /**
   * From any cell of the plane, Forward lands on the neighbouring cell in
   * `direction`, wrapping from 0 to size-1 and from size-1 to 0; so it never
   * leaves the plane.
   */
  lemma ForwardIsNeighbour(pos: (int, int), direction: int, rows: int, columns: int)
    requires rows >= 1 && columns >= 1
    requires 0 <= pos.0 < rows && 0 <= pos.1 < columns
    ensures Forward(pos, direction, rows, columns) == Neighbour(pos, direction, rows, columns)
    ensures var q := Forward(pos, direction, rows, columns);
            0 <= q.0 < rows && 0 <= q.1 < columns
  {
    var (r, c) := pos;
    ModWraps(rows);
    ModWraps(columns);
    if direction == North && r > 0 {
      ModInRange(r - 1, rows);
    } else if direction == West && c > 0 {
      ModInRange(c - 1, columns);
    } else if direction == South && r < rows - 1 {
      ModInRange(r + 1, rows);
    } else if direction != North && direction != West && direction != South && c < columns - 1 {
      ModInRange(c + 1, columns);
    }
  }

  /**
   * Forward changes exactly one coordinate by the unit vector of `direction`
   * (North: row-1, West: column-1, South: row+1, anything else: column+1), up
   * to the wrap-around.
   */
  lemma ForwardOffset(pos: (int, int), direction: int, rows: int, columns: int)
    requires rows >= 1 && columns >= 1
    requires 0 <= pos.0 < rows && 0 <= pos.1 < columns
    ensures var q := Forward(pos, direction, rows, columns);
            var (dr, dc) := if direction == North then (-1, 0)
                            else if direction == West then (0, -1)
                            else if direction == South then (1, 0)
                            else (0, 1);
            (q.0 == pos.0 + dr || q.0 == pos.0 + dr + rows || q.0 == pos.0 + dr - rows)
            && (q.1 == pos.1 + dc || q.1 == pos.1 + dc + columns || q.1 == pos.1 + dc - columns)
  {
    ForwardIsNeighbour(pos, direction, rows, columns);
  }

  // ---------------------------------------------------------------------
  // Turning

  /**
   * The turn written out: on white 0->3, 1->0, 2->1, 3->2 and the out-of-range
   * initial 4->3; on any other colour 0->1, 1->2, 2->3, 3->0 and 4->1.
   */
  lemma TurnTable(direction: int, onWhite: bool)
    requires 0 <= direction <= 4
    ensures Turn(direction, onWhite) ==
      if onWhite then [3, 0, 1, 2, 3][direction] else [1, 2, 3, 0, 1][direction]
  {
  }

  // ---------------------------------------------------------------------
  // One step

  /**
   * A step writes the flipped colour into the ant's pre-step cell and leaves
   * every other cell as it was; since Flip never returns its argument,
   * exactly one cell of the plane differs afterwards.
   */
  lemma StepChangesOnlyAntCell(s: State)
    requires Valid(s)
    ensures var t := Step(s);
            IsPlane(t.plane, s.rows, s.columns)
            && t.plane[s.ant.0][s.ant.1] == Flip(s.plane[s.ant.0][s.ant.1])
            && t.plane[s.ant.0][s.ant.1] != s.plane[s.ant.0][s.ant.1]
            && forall i, j :: 0 <= i < s.rows && 0 <= j < s.columns && (i, j) != s.ant ==>
                 t.plane[i][j] == s.plane[i][j]
  {
  }

  /**
   * On a white cell the cell becomes black and the direction goes to
   * (d-1) mod 4; on any other cell the cell becomes white and the direction
   * goes to (d+1) mod 4. Then the ant moves one cell in the new direction.
   */
  lemma StepTurnsThenMoves(s: State)
    requires Valid(s)
    ensures var t := Step(s);
            var (r, c) := s.ant;
            (s.plane[r][c] == White ==>
               t.plane[r][c] == Black && t.direction == [3, 0, 1, 2, 3][s.direction])
            && (s.plane[r][c] != White ==>
               t.plane[r][c] == White && t.direction == [1, 2, 3, 0, 1][s.direction])
            && t.ant == Neighbour(s.ant, t.direction, s.rows, s.columns)
  {
    var t := Step(s);
    TurnTable(s.direction, s.plane[s.ant.0][s.ant.1] == White);
    ForwardIsNeighbour(s.ant, t.direction, s.rows, s.columns);
  }

  /**
   * The initial direction 4 (possible because the initial draw is from 0..4
   * inclusive) behaves exactly like North from the first step on.
   */
  lemma InitialFourActsAsNorth(s: State)
    requires Valid(s) && s.direction == 4
    ensures Step(s) == Step(s.(direction := North))
  {
  }

  /** A step keeps a two-coloured plane two-coloured. */
  lemma StepKeepsTwoColours(s: State)
    requires Valid(s) && TwoColoured(s.plane)
    ensures TwoColoured(Step(s).plane)
  {
    var t := Step(s);
    forall i, j | 0 <= i < |t.plane| && 0 <= j < |t.plane[i]|
      ensures t.plane[i][j] != Other
    {
      StepChangesOnlyAntCell(s);
    }
  }

  /** Overwriting one cell of a row changes its black count by the difference at that cell. */
  lemma {:induction false} RowBlacksPut(row: seq<Colour>, j: int, v: Colour)
    requires 0 <= j < |row|
    ensures RowBlacks(row[j := v]) + (if row[j] == Black then 1 else 0)
            == RowBlacks(row) + (if v == Black then 1 else 0)
  {
    if j == 0 {
      assert row[j := v][1..] == row[1..];
    } else {
      assert row[j := v][1..] == row[1..][j - 1 := v];
      RowBlacksPut(row[1..], j - 1, v);
    }
  }

  /** Overwriting one row of a plane changes its black count by the rows' difference. */
  lemma {:induction false} BlacksPutRow(plane: seq<seq<Colour>>, r: int, row: seq<Colour>)
    requires 0 <= r < |plane|
    ensures Blacks(plane[r := row]) + RowBlacks(plane[r]) == Blacks(plane) + RowBlacks(row)
  {
    if r == 0 {
      assert plane[r := row][1..] == plane[1..];
    } else {
      assert plane[r := row][1..] == plane[1..][r - 1 := row];
      BlacksPutRow(plane[1..], r - 1, row);
    }
  }

  /**
   * On a two-coloured plane a step changes the number of black cells by
   * exactly one: up when the ant stood on white, down when it stood on black.
   */
  lemma StepBlackCount(s: State)
    requires Valid(s) && TwoColoured(s.plane)
    ensures var (r, c) := s.ant;
            Blacks(Step(s).plane) == Blacks(s.plane) + (if s.plane[r][c] == White then 1 else -1)
  {
    var (r, c) := s.ant;
    var colour := s.plane[r][c];
    RowBlacksPut(s.plane[r], c, Flip(colour));
    BlacksPutRow(s.plane, r, s.plane[r][c := Flip(colour)]);
  }

  // ---------------------------------------------------------------------
  // Many steps

  /** A fresh plane has the stated size, is two-coloured and holds no black cell. */
  lemma {:induction false} EmptyPlaneIsBlank(rows: nat, columns: nat)
    ensures IsPlane(EmptyPlane(rows, columns), rows, columns)
    ensures TwoColoured(EmptyPlane(rows, columns))
    ensures Blacks(EmptyPlane(rows, columns)) == 0
  {
    var p := EmptyPlane(rows, columns);
    if rows > 0 {
      EmptyRowIsBlank(columns);
      assert p[1..] == EmptyPlane(rows - 1, columns);
      EmptyPlaneIsBlank(rows - 1, columns);
    }
  }

  /** A fresh row holds no black cell. */
  lemma {:induction false} EmptyRowIsBlank(columns: nat)
    ensures RowBlacks(seq(columns, _ => White)) == 0
  {
    if columns > 0 {
      assert seq(columns, _ => White)[1..] == seq(columns - 1, _ => White);
      EmptyRowIsBlank(columns - 1);
    }
  }

  /** Over any number of steps a two-coloured plane stays two-coloured. */
  lemma {:induction false} StepNKeepsTwoColours(s: State, n: nat)
    requires Valid(s) && TwoColoured(s.plane)
    ensures TwoColoured(StepN(s, n).plane)
    decreases n
  {
    if n > 0 {
      StepKeepsTwoColours(s);
      StepNKeepsTwoColours(Step(s), n - 1);
    }
  }

  /** What one step does to a two-coloured plane, in the form the count over many steps uses. */
  lemma StepMovesBlacksByOne(s: State)
    requires Valid(s) && TwoColoured(s.plane)
    ensures TwoColoured(Step(s).plane)
    ensures Blacks(Step(s).plane) == Blacks(s.plane) + 1 || Blacks(Step(s).plane) == Blacks(s.plane) - 1
  {
    StepKeepsTwoColours(s);
    StepBlackCount(s);
  }

  /**
   * `b` is reachable from `b0` by `n` changes of exactly one each: it lies
   * within n of b0 and differs from it by an amount with the parity of n.
   */
  ghost predicate WithinSteps(b0: int, b: int, n: int)
  {
    b0 - n <= b <= b0 + n && (b + n) % 2 == b0 % 2
  }

  /**
   * Over n steps from a two-coloured plane the number of black cells moves
   * by at most n and its parity alternates with every step.
   */
  lemma {:induction false} StepNBlackCount(s: State, n: nat)
    requires Valid(s) && TwoColoured(s.plane)
    ensures WithinSteps(Blacks(s.plane), Blacks(StepN(s, n).plane), n)
    decreases n
  {
    if n > 0 {
      var next := Step(s);
      StepMovesBlacksByOne(s);
      StepNBlackCount(next, n - 1);
      CountOneMore(Blacks(s.plane), Blacks(next.plane), Blacks(StepN(next, n - 1).plane), n - 1);
    }
  }

  /** One more change by one before k changes by one makes k + 1 changes by one. */
  lemma CountOneMore(b0: int, b1: int, b: int, k: int)
    requires b1 == b0 + 1 || b1 == b0 - 1
    requires WithinSteps(b1, b, k)
    ensures WithinSteps(b0, b, k + 1)
  {
    assert (b + k + 1) % 2 == ((b + k) % 2 + 1) % 2;
    assert b0 % 2 == (b1 % 2 + 1) % 2;
  }

  /**
   * From the state right after construction, after n steps there are at most
   * n black cells and their number has the parity of n.
   */
  lemma InitialBlackCount(rows: nat, columns: nat, ant: (int, int), direction: int, n: nat)
    requires Valid(Initial(rows, columns, ant, direction))
    ensures var b := Blacks(StepN(Initial(rows, columns, ant, direction), n).plane);
            b <= n && b % 2 == n % 2
  {
    var s := Initial(rows, columns, ant, direction);
    EmptyPlaneIsBlank(rows, columns);
    StepNBlackCount(s, n);
    var b := Blacks(StepN(s, n).plane);
    assert (b + n) % 2 == 0;
    assert b % 2 == n % 2 by {
      assert b + n == 2 * ((b + n) / 2);
    }
  }
}

/** The driver state of `main`: the run state, the hovered-cell clamp, the two
    grid buffers with the generation step and pointer swap, and one pass of
    the frame loop restricted to those pieces. */
module Game {
  import opened Rule
  import opened Torus

  /** The local enum `current_state`. */
  datatype RunState = Running | Stopped

  /** The effect of key S on the run state. */
  function Toggled(s: RunState): (t: RunState)
    ensures t != s
  {
    if s == Stopped then Running else Stopped
  }

  /** Pressing S twice restores the run state. */
  lemma ToggledTwice(s: RunState)
    ensures Toggled(Toggled(s)) == s
  {
  }

  /** The value `iclamp` leaves in `*num`. */
  function Clamped(num: int, min: int, max: int): (r: int)
    ensures num > max ==> r == max
    ensures num <= max && num < min ==> r == min
    ensures min <= max ==> min <= r <= max
    ensures min <= num <= max ==> r == num
  {
    if num > max then max else if num < min then min else num
  }

  /** Clamping a clamped value changes nothing. */
  lemma ClampedIdempotent(num: int, min: int, max: int)
    requires min <= max
    ensures Clamped(Clamped(num, min, max), min, max) == Clamped(num, min, max)
  {
  }

  /** `iclamp(&num, min, max)`: the pointed-to integer goes in as `num` and
      its new value comes out as `clamped`. */
  method IClamp(num: int, min: int, max: int) returns (clamped: int)
    ensures clamped == Clamped(num, min, max)
    ensures min <= max ==> min <= clamped <= max
  {
    clamped := num;
    if clamped > max {
      clamped := max;
    } else if clamped < min {
      clamped := min;
    }
  }

  /** True when every cell of `g` is dead. */
  predicate AllDead(g: array2<bool>)
    reads g
  {
    forall i, j :: 0 <= i < g.Length0 && 0 <= j < g.Length1 ==> !g[i, j]
  }

  /** The next state of cell `(x, y)` of `src`:
      `new_state((*src)[y][x], get_neighbors(src, x, y))`. */
  function NextCell(src: array2<bool>, x: int, y: int): (alive: bool)
    reads src
    requires IsGrid(src) && 0 <= x < Width && 0 <= y < Height
    ensures var live := CountTrue(GetNeighbors(src, x, y).n);
      alive <==> live == 3 || (src[y, x] && live == 2)
  {
    NextState(src[y, x], GetNeighbors(src, x, y))
  }

  /** The right-hand side of the assignment in the step's inner loop. */
  method ComputeCell(src: array2<bool>, x: int, y: int) returns (alive: bool)
    requires IsGrid(src) && 0 <= x < Width && 0 <= y < Height
    ensures alive == NextCell(src, x, y)
  {
    alive := NewState(src[y, x], GetNeighbors(src, x, y));
  }

  /** The two global buffers `grid` and `grid2`, the pointers `current_grid`
      and `other_grid` that select their roles, and `current_state`. */
  class Simulation {
    var current: array2<bool>
    var other: array2<bool>
    var state: RunState

    /** Both buffers have the grid's shape and are distinct arrays. */
    ghost predicate Valid()
      reads this
    {
      IsGrid(current) && IsGrid(other) && current != other
    }

    /** Start of `main`: both buffers zero-initialised, `current_grid` on the
        first, the state `STOPPED`. */
    constructor ()
      ensures Valid() && fresh(current) && fresh(other)
      ensures AllDead(current) && AllDead(other)
      ensures state == Stopped
    {
      current := new bool[Height, Width]((i, j) => false);
      other := new bool[Height, Width]((i, j) => false);
      state := Stopped;
    }

    /** The right-click edit: while `STOPPED`, the hovered cell (x, y) of the
        current buffer is set alive; every other cell, the other buffer and
        the run state are untouched, and while `RUNNING` nothing changes. */
    method EditCell(x: int, y: int)
      requires Valid() && 0 <= x < Width && 0 <= y < Height
      modifies current
      ensures Valid()
      ensures forall i, j :: 0 <= i < Height && 0 <= j < Width ==>
        current[i, j] == ((state == Stopped && i == y && j == x) || old(current[i, j]))
      ensures forall i, j :: 0 <= i < Height && 0 <= j < Width ==> other[i, j] == old(other[i, j])
    {
      if state == Stopped {
        current[y, x] := true;
      }
    }

    /** Key S: STOPPED becomes RUNNING and back; no cell changes. */
    method ToggleRun()
      requires Valid()
      modifies this`state
      ensures Valid()
      ensures state == Toggled(old(state))
    {
      state := Toggled(state);
    }

    /** The nested loops of the step: every cell of the other buffer receives
        the next state of the same cell of the current buffer; the current
        buffer, read for every neighbour lookup, is never written. */
    method Generate()
      requires Valid()
      modifies other
      ensures Valid()
      ensures forall i, j :: 0 <= i < Height && 0 <= j < Width ==> current[i, j] == old(current[i, j])
      ensures forall i, j :: 0 <= i < Height && 0 <= j < Width ==>
        other[i, j] == NextCell(current, j, i)
    {
      for i := 0 to Height
        invariant forall r, c :: 0 <= r < i && 0 <= c < Width ==> other[r, c] == NextCell(current, c, r)
      {
        GenerateRow(i);
      }
    }

    /** The inner loop of the step for row `i`: its cells of the other buffer
        receive their next states, and no other row, and nothing in the
        current buffer, changes. */
    method GenerateRow(i: int)
      requires Valid() && 0 <= i < Height
      modifies other
      ensures forall c :: 0 <= c < Width ==> other[i, c] == NextCell(current, c, i)
      ensures forall r, c :: 0 <= r < Height && r != i && 0 <= c < Width ==> other[r, c] == old(other[r, c])
    {
      for j := 0 to Width
        invariant forall c :: 0 <= c < j ==> other[i, c] == NextCell(current, c, i)
        invariant forall r, c :: 0 <= r < Height && r != i && 0 <= c < Width ==> other[r, c] == old(other[r, c])
      {
        var next := ComputeCell(current, j, i);
        other[i, j] := next;
      }
    }

    /** The swap: the two pointers are exchanged and no cell is copied. */
    method Swap()
      requires Valid()
      modifies this`current, this`other
      ensures Valid()
      ensures current == old(other) && other == old(current)
    {
      var temp := current;
      current := other;
      other := temp;
    }

    /** The guarded step: only while RUNNING and when the time gate reports
        `elapsed`, compute the next generation into the other buffer and swap
        roles. The former current buffer, now other, keeps the generation the
        new one was computed from. */
    method Advance(elapsed: bool)
      requires Valid()
      modifies this`current, this`other, other
      ensures Valid() && state == old(state)
      ensures state == Running && elapsed ==>
        current == old(other) && other == old(current) &&
        (forall i, j :: 0 <= i < Height && 0 <= j < Width ==> other[i, j] == old(current[i, j])) &&
        (forall i, j :: 0 <= i < Height && 0 <= j < Width ==>
          current[i, j] == NextCell(other, j, i))
      ensures !(state == Running && elapsed) ==>
        current == old(current) && other == old(other) &&
        (forall i, j :: 0 <= i < Height && 0 <= j < Width ==> other[i, j] == old(other[i, j]))
    {
      if state == Running && elapsed {
        Generate();
        Swap();
      }
    }

    /** One pass of the frame loop without its drawing: the hovered cell
        `(cellX, cellY)` from the mouse is clamped into the grid, a right
        click edits it, key S toggles the run state, then the guarded step
        runs under the new run state. */
    method Frame(cellX: int, cellY: int, rightPressed: bool, keySPressed: bool, elapsed: bool)
      requires Valid()
      modifies this, current, other
      ensures Valid()
      ensures state == if keySPressed then Toggled(old(state)) else old(state)
      ensures var hx, hy := Clamped(cellX, 0, Width - 1), Clamped(cellY, 0, Height - 1);
        var edit := old(state) == Stopped && rightPressed;
        var stepped := state == Running && elapsed;
        (stepped ==> current == old(other) && other == old(current)) &&
        (!stepped ==> current == old(current) && other == old(other)) &&
        // the edited generation: in `other` after a step, in `current` otherwise
        (stepped ==> forall i, j :: 0 <= i < Height && 0 <= j < Width ==>
          other[i, j] == ((edit && i == hy && j == hx) || old(current[i, j]))) &&
        (!stepped ==> forall i, j :: 0 <= i < Height && 0 <= j < Width ==>
          current[i, j] == ((edit && i == hy && j == hx) || old(current[i, j]))) &&
        (stepped ==> forall i, j :: 0 <= i < Height && 0 <= j < Width ==>
          current[i, j] == NextCell(other, j, i)) &&
        (!stepped ==> forall i, j :: 0 <= i < Height && 0 <= j < Width ==>
          other[i, j] == old(other[i, j]))
    {
      var hx := IClamp(cellX, 0, Width - 1);
      var hy := IClamp(cellY, 0, Height - 1);
      if rightPressed {
        EditCell(hx, hy);
      }
      if keySPressed {
        ToggleRun();
      }
      Advance(elapsed);
    }
  }
}

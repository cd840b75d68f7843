/**
 * The reference automaton written in Python (generate.py): a Game-of-Life
 * like rule given by the neighbour counts that give birth and those that let
 * a live cell survive, a starvation delay, and a per-cell lifetime that
 * counts the steps a cell kept its state. Every generation is kept.
 */
module Life {

  /** A board, indexed `[y][x]` like the source's `(sizeY, sizeX)` arrays. */
  type Grid = seq<seq<int>>

  /** The largest lifetime a cell records. */
  const MaxLifetime := 255

  /** A rule set: the counts that keep a live cell, the counts that give birth, the starvation delay. */
  datatype Rules = Rules(name: string, survive: seq<int>, birth: seq<int>, starve: int)

  /** `g` has `sizeY` rows of `sizeX` cells. */
  predicate Shaped(g: Grid, sizeX: nat, sizeY: nat) {
    |g| == sizeY && forall y :: 0 <= y < sizeY ==> |g[y]| == sizeX
  }

  /** Every cell of `g` is 0 or 1. */
  predicate Binary(g: Grid) {
    forall y, x :: 0 <= y < |g| && 0 <= x < |g[y]| ==> g[y][x] == 0 || g[y][x] == 1
  }

  /** Every cell of `g` is a lifetime the automaton can record. */
  predicate Lifetimes(g: Grid) {
    forall y, x :: 0 <= y < |g| && 0 <= x < |g[y]| ==> 0 <= g[y][x] <= MaxLifetime
  }

  /** A board of zeros, as `np.zeros`. */
  function Zeros(sizeX: nat, sizeY: nat): (g: Grid)
    ensures Shaped(g, sizeX, sizeY) && Binary(g) && Lifetimes(g)
    ensures forall y, x :: 0 <= y < sizeY && 0 <= x < sizeX ==> g[y][x] == 0
  {
    seq(sizeY, _ => seq(sizeX, _ => 0))
  }

  // ---------------------------------------------------------------------------
  // count_neighbors
  // ---------------------------------------------------------------------------

  /**
   * The index after `x`: `x + 1` only while that is below `size - 1`, else 0.
   * So the last index is never the successor of the one before it.
   */
  function After(x: int, size: int): (r: int)
    requires 0 <= x < size
    ensures 0 <= r < size
    ensures r == 0 <==> x + 1 >= size - 1
  {
    if x + 1 < size - 1 then x + 1 else 0
  }

  /** The index before `x`: `x - 1` only while that is above 0, else `size - 1`. */
  function Before(x: int, size: int): (r: int)
    requires 0 <= x < size
    ensures 0 <= r < size
    ensures r == size - 1 <==> x <= 1
  {
    if x - 1 > 0 then x - 1 else size - 1
  }

  /**
   * count_neighbors: the eight cells around `(x, y)` on the wrapped board,
   * added up. On a board of zeros and ones the count is between 0 and 8.
   */
  function Neighbours(g: Grid, sizeX: nat, sizeY: nat, x: nat, y: nat): (n: int)
    requires Shaped(g, sizeX, sizeY) && x < sizeX && y < sizeY
    ensures Binary(g) ==> 0 <= n <= 8
  {
    var xp1, xm1 := After(x, sizeX), Before(x, sizeX);
    var yp1, ym1 := After(y, sizeY), Before(y, sizeY);
    g[ym1][xm1] + g[ym1][x] + g[ym1][xp1] + g[y][xp1] + g[y][xm1] + g[yp1][xm1] + g[yp1][x] + g[yp1][xp1]
  }

  /**
   * The wrap is not a torus: on a board of three or more columns, the cell
   * left of column 1 is the last column, not column 0, and the cell right of
   * the second to last column is column 0, not the last one.
   */
  lemma WrapSkipsEdges(size: nat)
    requires size >= 3
    ensures Before(1, size) == size - 1 && After(size - 2, size) == 0
  {
  }

  // ---------------------------------------------------------------------------
  // evaluate_step, one cell
  // ---------------------------------------------------------------------------

  /**
   * A cell's next state, in the order of the source: birth, then survival,
   * then a live cell about to die is kept while its lifetime is below the
   * starvation delay.
   */
  function NextCell(was: int, n: int, life: int, rules: Rules): (v: int)
    ensures v == 0 || v == 1
    ensures v == 1 <==> (was == 0 && n in rules.birth) || (was == 1 && (n in rules.survive || life < rules.starve))
  {
    var born := if n in rules.birth && was == 0 then 1 else 0;
    var kept := if n in rules.survive && was == 1 then 1 else born;
    if was == 1 && kept == 0 then (if life >= rules.starve then 0 else 1) else kept
  }

  /** Without a starvation delay a live cell lives on only by the survive counts. */
  lemma NoStarvation(was: int, n: int, life: int, rules: Rules)
    requires rules.starve <= 0 && life >= 0
    ensures NextCell(was, n, life, rules) == 1 <==> (was == 0 && n in rules.birth) || (was == 1 && n in rules.survive)
  {
  }

  /**
   * A cell's next lifetime: one more step, at most 255, when its state did
   * not change, and 0 when it did.
   */
  function NextLifetime(was: int, now: int, life: int): (l: int)
    ensures was != now ==> l == 0
    ensures was == now ==> l == (if life + 1 >= MaxLifetime then MaxLifetime else life + 1)
    ensures 0 <= life ==> 0 <= l <= MaxLifetime
  {
    if was == now then
      var l := life + 1;
      if l >= MaxLifetime then MaxLifetime else l
    else 0
  }

  // ---------------------------------------------------------------------------
  // evaluate_step, the whole board
  // ---------------------------------------------------------------------------

  /** Cell `(x, y)` of the generation after `g`, whose lifetimes are `life`. */
  function CellAfter(g: Grid, life: Grid, sizeX: nat, sizeY: nat, rules: Rules, x: nat, y: nat): int
    requires Shaped(g, sizeX, sizeY) && Shaped(life, sizeX, sizeY) && x < sizeX && y < sizeY
  {
    NextCell(g[y][x], Neighbours(g, sizeX, sizeY, x, y), life[y][x], rules)
  }

  /** The lifetime of cell `(x, y)` in the generation after `g`. */
  function LifetimeAfter(g: Grid, life: Grid, sizeX: nat, sizeY: nat, rules: Rules, x: nat, y: nat): int
    requires Shaped(g, sizeX, sizeY) && Shaped(life, sizeX, sizeY) && x < sizeX && y < sizeY
  {
    NextLifetime(g[y][x], CellAfter(g, life, sizeX, sizeY, rules, x, y), life[y][x])
  }

  /** The generation after `g`, whose lifetimes are `life`. */
  function NextGrid(g: Grid, life: Grid, sizeX: nat, sizeY: nat, rules: Rules): (r: Grid)
    requires Shaped(g, sizeX, sizeY) && Shaped(life, sizeX, sizeY)
    ensures Shaped(r, sizeX, sizeY)
    ensures forall y, x :: 0 <= y < sizeY && 0 <= x < sizeX ==> r[y][x] == CellAfter(g, life, sizeX, sizeY, rules, x, y)
  {
    seq(sizeY, y requires 0 <= y < sizeY =>
      seq(sizeX, x requires 0 <= x < sizeX => CellAfter(g, life, sizeX, sizeY, rules, x, y)))
  }

  /** The lifetimes that go with `NextGrid(g, life, ...)`. */
  function NextLives(g: Grid, life: Grid, sizeX: nat, sizeY: nat, rules: Rules): (r: Grid)
    requires Shaped(g, sizeX, sizeY) && Shaped(life, sizeX, sizeY)
    ensures Shaped(r, sizeX, sizeY)
    ensures forall y, x :: 0 <= y < sizeY && 0 <= x < sizeX ==> r[y][x] == LifetimeAfter(g, life, sizeX, sizeY, rules, x, y)
  {
    seq(sizeY, y requires 0 <= y < sizeY =>
      seq(sizeX, x requires 0 <= x < sizeX => LifetimeAfter(g, life, sizeX, sizeY, rules, x, y)))
  }

  /** Every generation after the first holds only zeros and ones. */
  lemma NextGridBinary(g: Grid, life: Grid, sizeX: nat, sizeY: nat, rules: Rules)
    requires Shaped(g, sizeX, sizeY) && Shaped(life, sizeX, sizeY)
    ensures Binary(NextGrid(g, life, sizeX, sizeY, rules))
  {
  }

  /** Lifetimes stay between 0 and 255. */
  lemma NextLivesBounded(g: Grid, life: Grid, sizeX: nat, sizeY: nat, rules: Rules)
    requires Shaped(g, sizeX, sizeY) && Shaped(life, sizeX, sizeY) && Lifetimes(life)
    ensures Lifetimes(NextLives(g, life, sizeX, sizeY, rules))
  {
  }

  /** The rows of a two-dimensional array, as a board. */
  function Rows(a: array2<int>): (g: Grid)
    reads a
    ensures Shaped(g, a.Length1, a.Length0)
    ensures forall y, x :: 0 <= y < a.Length0 && 0 <= x < a.Length1 ==> g[y][x] == a[y, x]
  {
    seq(a.Length0, y requires 0 <= y < a.Length0 reads a =>
      seq(a.Length1, x requires 0 <= x < a.Length1 reads a => a[y, x]))
  }

  // ---------------------------------------------------------------------------
  // The GoLT class
  // ---------------------------------------------------------------------------

  /**
   * A history of generations: one lifetime board per state, all boards of
   * the game's size, lifetimes starting at zero and bounded by 255, and each
   * generation the step of the one before it.
   */
  ghost predicate History(state: seq<Grid>, lifeTime: seq<Grid>, sizeX: nat, sizeY: nat, rules: Rules) {
    && |state| >= 1 && |lifeTime| == |state|
    && (forall k :: 0 <= k < |state| ==> Shaped(state[k], sizeX, sizeY))
    && (forall k :: 0 <= k < |lifeTime| ==> Shaped(lifeTime[k], sizeX, sizeY) && Lifetimes(lifeTime[k]))
    && lifeTime[0] == Zeros(sizeX, sizeY)
    && (forall k :: 1 <= k < |state| ==>
          && state[k] == NextGrid(state[k - 1], lifeTime[k - 1], sizeX, sizeY, rules)
          && lifeTime[k] == NextLives(state[k - 1], lifeTime[k - 1], sizeX, sizeY, rules))
  }

  /** Appending the step of the latest generation keeps a history a history. */
  lemma HistorySnoc(state: seq<Grid>, lifeTime: seq<Grid>, sizeX: nat, sizeY: nat, rules: Rules)
    requires History(state, lifeTime, sizeX, sizeY, rules)
    ensures var g, life := state[|state| - 1], lifeTime[|state| - 1];
      History(state + [NextGrid(g, life, sizeX, sizeY, rules)], lifeTime + [NextLives(g, life, sizeX, sizeY, rules)], sizeX, sizeY, rules)
  {
    var g, life := state[|state| - 1], lifeTime[|state| - 1];
    NextLivesBounded(g, life, sizeX, sizeY, rules);
  }

  /** An automaton with every generation it computed, and every generation's lifetimes. */
  class GoLT {
    var state: seq<Grid>
    var lifeTime: seq<Grid>
    var gameCount: nat
    const sizeX: nat
    const sizeY: nat
    const rules: Rules

    /**
     * One more state than steps taken, one lifetime board per state, all
     * boards of the game's size, lifetimes starting at zero and bounded by
     * 255, and each generation the step of the one before it.
     */
    ghost predicate Valid()
      reads this
    {
      |state| == gameCount + 1 && History(state, lifeTime, sizeX, sizeY, rules)
    }

    /** `GoLT(state, rules, (sizeX, sizeY))`: the first generation and zero lifetimes. */
    constructor(initial: Grid, rules: Rules, sizeX: nat, sizeY: nat)
      requires Shaped(initial, sizeX, sizeY)
      ensures Valid()
      ensures state == [initial] && lifeTime == [Zeros(sizeX, sizeY)] && gameCount == 0
      ensures this.rules == rules && this.sizeX == sizeX && this.sizeY == sizeY
    {
      this.state := [initial];
      this.gameCount := 0;
      this.sizeX, this.sizeY := sizeX, sizeY;
      this.rules := rules;
      this.lifeTime := [Zeros(sizeX, sizeY)];
    }

    /**
     * evaluate_step: fills a new state board and a new lifetime board cell
     * by cell from the latest generation, appends both and counts the step.
     * Earlier generations are left as they were.
     */
    method EvaluateStep()
      requires Valid()
      modifies this
      ensures Valid()
      ensures gameCount == old(gameCount) + 1
      ensures var g, life := old(state)[old(gameCount)], old(lifeTime)[old(gameCount)];
        && state == old(state) + [NextGrid(g, life, sizeX, sizeY, rules)]
        && lifeTime == old(lifeTime) + [NextLives(g, life, sizeX, sizeY, rules)]
    {
      var g, life := state[gameCount], lifeTime[gameCount];
      var newGameState, newLifeTime := EvaluateBoards(g, life);
      HistorySnoc(state, lifeTime, sizeX, sizeY, rules);
      state := state + [Rows(newGameState)];
      lifeTime := lifeTime + [Rows(newLifeTime)];
      gameCount := gameCount + 1;
    }

    /** The loops of evaluate_step: two boards of zeros filled row by row with the next generation. */
    method EvaluateBoards(g: Grid, life: Grid) returns (newGameState: array2<int>, newLifeTime: array2<int>)
      requires Shaped(g, sizeX, sizeY) && Shaped(life, sizeX, sizeY)
      ensures Rows(newGameState) == NextGrid(g, life, sizeX, sizeY, rules)
      ensures Rows(newLifeTime) == NextLives(g, life, sizeX, sizeY, rules)
    {
      newGameState := new int[sizeY, sizeX]((_, _) => 0);
      newLifeTime := new int[sizeY, sizeX]((_, _) => 0);
      var iy := 0;
      while iy < sizeY
        invariant 0 <= iy <= sizeY
        invariant forall y, x :: 0 <= y < iy && 0 <= x < sizeX ==>
          newGameState[y, x] == CellAfter(g, life, sizeX, sizeY, rules, x, y) &&
          newLifeTime[y, x] == LifetimeAfter(g, life, sizeX, sizeY, rules, x, y)
        invariant forall y, x :: iy <= y < sizeY && 0 <= x < sizeX ==> newGameState[y, x] == 0
      {
        EvaluateRow(g, life, iy, newGameState, newLifeTime);
        iy := iy + 1;
      }
      GridOfCells(g, life, newGameState, newLifeTime);
    }

    /** The arrays filled with the next generation's cells hold the next generation. */
    lemma GridOfCells(g: Grid, life: Grid, newGameState: array2<int>, newLifeTime: array2<int>)
      requires Shaped(g, sizeX, sizeY) && Shaped(life, sizeX, sizeY)
      requires newGameState.Length0 == newLifeTime.Length0 == sizeY
      requires newGameState.Length1 == newLifeTime.Length1 == sizeX
      requires forall y, x :: 0 <= y < sizeY && 0 <= x < sizeX ==>
        newGameState[y, x] == CellAfter(g, life, sizeX, sizeY, rules, x, y) &&
        newLifeTime[y, x] == LifetimeAfter(g, life, sizeX, sizeY, rules, x, y)
      ensures Rows(newGameState) == NextGrid(g, life, sizeX, sizeY, rules)
      ensures Rows(newLifeTime) == NextLives(g, life, sizeX, sizeY, rules)
    {
      var a, b := Rows(newGameState), NextGrid(g, life, sizeX, sizeY, rules);
      forall y | 0 <= y < sizeY ensures a[y] == b[y] {
        assert forall x :: 0 <= x < sizeX ==> a[y][x] == b[y][x];
      }
      var c, d := Rows(newLifeTime), NextLives(g, life, sizeX, sizeY, rules);
      forall y | 0 <= y < sizeY ensures c[y] == d[y] {
        assert forall x :: 0 <= x < sizeX ==> c[y][x] == d[y][x];
      }
    }

    /** The inner loop of evaluate_step: row `iy` of the new boards. */
    method EvaluateRow(g: Grid, life: Grid, iy: nat, newGameState: array2<int>, newLifeTime: array2<int>)
      requires Shaped(g, sizeX, sizeY) && Shaped(life, sizeX, sizeY) && iy < sizeY
      requires newGameState != newLifeTime
      requires newGameState.Length0 == newLifeTime.Length0 == sizeY
      requires newGameState.Length1 == newLifeTime.Length1 == sizeX
      requires forall x :: 0 <= x < sizeX ==> newGameState[iy, x] == 0
      modifies newGameState, newLifeTime
      ensures forall x :: 0 <= x < sizeX ==>
        newGameState[iy, x] == CellAfter(g, life, sizeX, sizeY, rules, x, iy) &&
        newLifeTime[iy, x] == LifetimeAfter(g, life, sizeX, sizeY, rules, x, iy)
      ensures forall y, x :: 0 <= y < sizeY && y != iy && 0 <= x < sizeX ==>
        newGameState[y, x] == old(newGameState[y, x]) && newLifeTime[y, x] == old(newLifeTime[y, x])
    {
      var ix := 0;
      while ix < sizeX
        invariant 0 <= ix <= sizeX
        invariant forall x :: 0 <= x < ix ==>
          newGameState[iy, x] == CellAfter(g, life, sizeX, sizeY, rules, x, iy) &&
          newLifeTime[iy, x] == LifetimeAfter(g, life, sizeX, sizeY, rules, x, iy)
        invariant forall x :: ix <= x < sizeX ==> newGameState[iy, x] == 0
        invariant forall y, x :: 0 <= y < sizeY && y != iy && 0 <= x < sizeX ==>
          newGameState[y, x] == old(newGameState[y, x]) && newLifeTime[y, x] == old(newLifeTime[y, x])
      {
        var neighbors := Neighbours(g, sizeX, sizeY, ix, iy);
        if neighbors in rules.birth {
          if g[iy][ix] == 0 {
            newGameState[iy, ix] := 1;
          }
        }
        if neighbors in rules.survive {
          if g[iy][ix] == 1 {
            newGameState[iy, ix] := 1;
          }
        }
        if g[iy][ix] == 1 && newGameState[iy, ix] == 0 {
          if life[iy][ix] >= rules.starve {
            newGameState[iy, ix] := 0;
          } else {
            newGameState[iy, ix] := 1;
          }
        }
        if g[iy][ix] == newGameState[iy, ix] {
          newLifeTime[iy, ix] := life[iy][ix] + 1;
          newLifeTime[iy, ix] := if newLifeTime[iy, ix] >= MaxLifetime then MaxLifetime else newLifeTime[iy, ix];
        } else {
          newLifeTime[iy, ix] := 0;
        }
        ix := ix + 1;
      }
    }

    /**
     * vis_helper: steps until generation `gen + 5` exists, then returns
     * generation `gen` (0 for a negative `gen`), its lifetimes when `mode`
     * is set and its states otherwise.
     */
    method VisHelper(gen: int, mode: bool) returns (g: Grid)
      requires Valid()
      modifies this
      ensures Valid()
      ensures gameCount == if old(gameCount) > gen + 5 then old(gameCount) else gen + 6
      ensures state[..old(|state|)] == old(state) && lifeTime[..old(|lifeTime|)] == old(lifeTime)
      ensures var k := if gen <= 0 then 0 else gen;
        k < |state| && g == (if mode then lifeTime[k] else state[k])
    {
      while gameCount <= gen + 5
        invariant Valid()
        invariant old(gameCount) <= gameCount
        invariant old(gameCount) > gen + 5 ==> gameCount == old(gameCount)
        invariant old(gameCount) <= gen + 5 ==> gameCount <= gen + 6
        invariant state[..old(|state|)] == old(state) && lifeTime[..old(|lifeTime|)] == old(lifeTime)
        decreases gen + 6 - gameCount
      {
        EvaluateStep();
      }
      var k := gen;
      if k <= 0 {
        k := 0;
      }
      if mode {
        return lifeTime[k];
      }
      return state[k];
    }
  }

  // ---------------------------------------------------------------------------
  // GoLT_generator
  // ---------------------------------------------------------------------------

  /** `int(v / 2)`: the half of `v`, truncated toward zero. */
  function HalfTruncated(v: int): (h: int)
    ensures v >= 0 ==> 2 * h <= v < 2 * h + 2
    ensures v < 0 ==> 2 * h - 2 < v <= 2 * h
  {
    if v >= 0 then v / 2 else -((-v) / 2)
  }

  /**
   * The row (or column) that `square(c, ..., d, ...)` writes at step `i`:
   * `int(c - d/2 + i)`, where `d/2` is a true division, so the value is
   * `(2 * (c + i) - d) / 2` truncated toward zero.
   */
  function Start(c: int, d: int, i: int): int {
    HalfTruncated(2 * (c + i) - d)
  }

  /** A Python index `i` into `size` elements: a negative index counts from the end. */
  function Wrapped(i: int, size: nat): (r: int)
    requires -(size as int) <= i < size
    ensures 0 <= r < size
    ensures i >= 0 ==> r == i
    ensures i < 0 ==> r == i + size
  {
    if i < 0 then i + size else i
  }

  /** Every index `square(c, ..., d, ...)` writes along one axis of `size` cells is a valid Python index. */
  predicate SquareFits(c: int, d: int, size: nat) {
    forall i :: 0 <= i < d ==> -(size as int) <= Start(c, d, i) < size
  }

  /** Cell `k` of an axis of `size` cells is one that the first `n` steps of `square(c, ..., d, ...)` write. */
  predicate Written(c: int, d: int, size: nat, k: int, n: int)
    requires SquareFits(c, d, size)
  {
    exists i :: 0 <= i < n && i < d && Wrapped(Start(c, d, i), size) == k
  }

  /** Cell `k` of an axis of `size` cells is one that `square(c, ..., d, ...)` writes. */
  predicate Covered(c: int, d: int, size: nat, k: int)
    requires SquareFits(c, d, size)
  {
    Written(c, d, size, k, d)
  }

  /** A generator of starting boards over a board of zeros. */
  class Generator {
    const sizeX: nat
    const sizeY: nat
    const playfield: array2<int>

    /** `GoLT_generator((sizeX, sizeY))`: a fresh board of zeros. */
    constructor(sizeX: nat, sizeY: nat)
      ensures this.sizeX == sizeX && this.sizeY == sizeY
      ensures fresh(playfield) && playfield.Length0 == sizeY && playfield.Length1 == sizeX
      ensures forall y, x :: 0 <= y < sizeY && 0 <= x < sizeX ==> playfield[y, x] == 0
    {
      this.sizeX, this.sizeY := sizeX, sizeY;
      playfield := new int[sizeY, sizeX]((_, _) => 0);
    }

    /** empty: the board as it stands. */
    method Empty() returns (p: array2<int>)
      ensures p == playfield
    {
      return playfield;
    }

    /**
     * square: sets to 1 every cell whose row and column are written by the
     * `dy` by `dx` loop around `(x, y)`, leaving all other cells as they
     * were, and returns the board.
     */
    method Square(x: int, y: int, dx: int, dy: int) returns (p: array2<int>)
      requires playfield.Length0 == sizeY && playfield.Length1 == sizeX
      requires SquareFits(x, dx, sizeX) && SquareFits(y, dy, sizeY)
      modifies playfield
      ensures p == playfield
      ensures forall r, c :: 0 <= r < sizeY && 0 <= c < sizeX ==>
        playfield[r, c] == if Covered(y, dy, sizeY, r) && Covered(x, dx, sizeX, c) then 1 else old(playfield[r, c])
    {
      var ix := 0;
      while ix < dx
        invariant 0 <= ix <= if dx < 0 then 0 else dx
        invariant forall r, c :: 0 <= r < sizeY && 0 <= c < sizeX ==>
          playfield[r, c] == if Covered(y, dy, sizeY, r) && Written(x, dx, sizeX, c, ix) then 1 else old(playfield[r, c])
      {
        var iy := 0;
        while iy < dy
          invariant 0 <= iy <= if dy < 0 then 0 else dy
          invariant forall r, c :: 0 <= r < sizeY && 0 <= c < sizeX ==>
            playfield[r, c] ==
              if Covered(y, dy, sizeY, r) && Written(x, dx, sizeX, c, ix) then 1
              else if Written(y, dy, sizeY, r, iy) && c == Wrapped(Start(x, dx, ix), sizeX) then 1
              else old(playfield[r, c])
        {
          playfield[Wrapped(Start(y, dy, iy), sizeY), Wrapped(Start(x, dx, ix), sizeX)] := 1;
          iy := iy + 1;
        }
        ix := ix + 1;
      }
      return playfield;
    }
  }
}

/**
 * The CPU-side bookkeeping of the WebGL cellular automaton in
 * GoLTWeb/ca.js: the fragment shader text built from the survive and birth
 * lists, the bounded history of boards, and reading one cell of the current
 * board. The GPU step itself is a parameter: `Iterate` is given the board
 * the shader produced.
 */
module Automaton {
  import opened Wrappers
  import opened Strings
  import opened Fragment

  // ---------------------------------------------------------------------------
  // The fragment shader (ca_fragment_shader)
  // ---------------------------------------------------------------------------

  /**
   * The fixed text of ca_fragment_shader's template literal after its version
   * line: before the survive condition, between the two conditions, and after
   * the birth condition.
   */
  datatype CaText = CaText(head: string, middle: string, tail: string)

  /** The survive condition, age-guarded when `naturalDeath` is positive. */
  function SurviveCondition(survive: seq<int>, naturalDeath: int): string {
    if naturalDeath > 0 then AgeGuarded(Condition(survive), naturalDeath) else Condition(survive)
  }

  /** ca_fragment_shader(survive, birth, naturalDeath). */
  function FragmentShader(t: CaText, survive: seq<int>, birth: seq<int>, naturalDeath: int): string {
    "\n" + VersionLine + t.head + SurviveCondition(survive, naturalDeath) + t.middle + Condition(birth) + t.tail
  }

  /**
   * The survive condition reads back as the survive list; with a positive
   * `naturalDeath` it is wrapped as `(...) && age < naturalDeath`.
   */
  lemma SurviveConditionRead(survive: seq<int>, naturalDeath: int)
    ensures var r := SurviveCondition(survive, naturalDeath);
      var n := |Condition(survive)|;
      if naturalDeath > 0 then
        |r| > n + 1 && r[..1] == "(" && ParseCondition(r[1..n + 1]) == Some(survive) &&
        r[n + 1..] == ") && age < " + IntToString(naturalDeath)
      else ParseCondition(r) == Some(survive)
  {
    ConditionRoundTrip(survive);
    var c := Condition(survive);
    if naturalDeath > 0 {
      var r := AgeGuarded(c, naturalDeath);
      assert r[1..|c| + 1] == c;
    }
  }

  /** Where the survive and the birth condition start in the shader text. */
  function SurviveAt(t: CaText): nat { 1 + |VersionLine| + |t.head| }

  function BirthAt(t: CaText, survive: seq<int>, naturalDeath: int): nat {
    SurviveAt(t) + |SurviveCondition(survive, naturalDeath)| + |t.middle|
  }

  /** The shader starts with a newline and `#version 300 es`. */
  lemma FragmentShaderVersion(t: CaText, survive: seq<int>, birth: seq<int>, naturalDeath: int)
    ensures var s := FragmentShader(t, survive, birth, naturalDeath);
      |s| > |VersionLine| && s[..1 + |VersionLine|] == "\n" + VersionLine
  {
    ShaderLayout(t, SurviveCondition(survive, naturalDeath), Condition(birth));
  }

  /** The birth list reads back from its place in the shader. */
  lemma FragmentShaderBirth(t: CaText, survive: seq<int>, birth: seq<int>, naturalDeath: int)
    ensures var s := FragmentShader(t, survive, birth, naturalDeath);
      var b := BirthAt(t, survive, naturalDeath);
      var m := |Condition(birth)|;
      |s| >= b + m && ParseCondition(s[b..b + m]) == Some(birth)
  {
    ShaderLayout(t, SurviveCondition(survive, naturalDeath), Condition(birth));
    ConditionRoundTrip(birth);
  }

  /**
   * The survive condition sits at its place in the shader, inside the age
   * guard when `naturalDeath` is positive; with ConditionRoundTrip it reads
   * back as the survive list.
   */
  lemma FragmentShaderSurvive(t: CaText, survive: seq<int>, birth: seq<int>, naturalDeath: int)
    ensures var s := FragmentShader(t, survive, birth, naturalDeath);
      var a := SurviveAt(t);
      var n := |Condition(survive)|;
      if naturalDeath > 0 then
        |s| > a + n && s[a] == '(' && s[a + 1..a + 1 + n] == Condition(survive)
      else
        |s| >= a + n && s[a..a + n] == Condition(survive)
  {
    SurviveIn(t, Condition(survive), Condition(birth), naturalDeath);
  }

  /** FragmentShaderSurvive for any condition texts. */
  lemma SurviveIn(t: CaText, cond: string, bc: string, naturalDeath: int)
    ensures var sc := if naturalDeath > 0 then AgeGuarded(cond, naturalDeath) else cond;
      var s := "\n" + VersionLine + t.head + sc + t.middle + bc + t.tail;
      var a := SurviveAt(t);
      if naturalDeath > 0 then
        |s| > a + |cond| && s[a] == '(' && s[a + 1..a + 1 + |cond|] == cond
      else
        |s| >= a + |cond| && s[a..a + |cond|] == cond
  {
    var sc := if naturalDeath > 0 then AgeGuarded(cond, naturalDeath) else cond;
    ShaderLayout(t, sc, bc);
    if naturalDeath > 0 {
      GuardedAt("\n" + VersionLine + t.head + sc + t.middle + bc + t.tail, SurviveAt(t), cond, naturalDeath);
    }
  }

  /** Where an age-guarded condition stands, the condition stands one character on, behind `(`. */
  lemma GuardedAt(s: string, a: nat, cond: string, limit: int)
    requires var g := AgeGuarded(cond, limit); a + |g| <= |s| && s[a..a + |g|] == g
    ensures |s| > a + |cond| && s[a] == '(' && s[a + 1..a + 1 + |cond|] == cond
  {
    var g := AgeGuarded(cond, limit);
    assert g[0] == g[..1][0];
    assert s[a] == s[a..a + |g|][0];
    Within(s, a, g, 1, |cond| + 1);
  }

  /** Where the fixed text and the two conditions lie in the shader text. */
  lemma ShaderLayout(t: CaText, sc: string, bc: string)
    ensures var s := "\n" + VersionLine + t.head + sc + t.middle + bc + t.tail;
      var a := 1 + |VersionLine| + |t.head|;
      var b := a + |sc| + |t.middle|;
      |s| >= b + |bc| &&
      s[..1 + |VersionLine|] == "\n" + VersionLine && s[a..a + |sc|] == sc && s[b..b + |bc|] == bc
  {
    var v := "\n" + VersionLine;
    var pre := v + t.head;
    var mid := pre + sc + t.middle;
    Kept(mid + bc, t.tail, |mid|, |mid| + |bc|);
    Between(mid, bc, []);
    Kept(pre + sc, t.middle, |pre|, |pre| + |sc|);
    Kept(mid, bc, |pre|, |pre| + |sc|);
    Kept(mid + bc, t.tail, |pre|, |pre| + |sc|);
    Between(pre, sc, []);
    Kept(v, t.head, 0, |v|);
    Kept(pre, sc, 0, |v|);
    Kept(pre + sc, t.middle, 0, |v|);
    Kept(mid, bc, 0, |v|);
    Kept(mid + bc, t.tail, 0, |v|);
  }

  /** Appending text keeps every slice of what was there. */
  lemma Kept(x: string, y: string, i: nat, j: nat)
    requires i <= j <= |x|
    ensures (x + y)[i..j] == x[i..j]
  {
  }

  /** The text between `a` and `b` is the text put there. */
  lemma Between(a: string, x: string, b: string)
    ensures (a + x + b)[|a|..|a| + |x|] == x
  {
  }

  /** A slice of a text found at `at` is found at the matching place. */
  lemma Within(s: string, at: nat, x: string, i: nat, j: nat)
    requires at + |x| <= |s| && s[at..at + |x|] == x
    requires i <= j <= |x|
    ensures s[at + i..at + j] == x[i..j]
  {
    forall k | 0 <= k < j - i
      ensures s[at + i..at + j][k] == x[i..j][k]
    {
      assert s[at + i + k] == s[at..at + |x|][i + k];
    }
  }

  // ---------------------------------------------------------------------------
  // Boards and cells
  // ---------------------------------------------------------------------------

  /** One element of a `Uint8Array`. */
  newtype byte = x: int | 0 <= x < 256

  /** A board as the GPU reads it back: four bytes (red, green, blue, alpha) per cell. */
  type Board = seq<byte>

  /** A new `Uint8Array` of `n` elements: all zero. */
  function Zeros(n: nat): (b: Board)
    ensures |b| == n && forall i :: 0 <= i < n ==> b[i] == 0
  {
    seq(n, _ => 0)
  }

  /** What getCell reports: whether the cell is alive, and its age. */
  datatype Cell = Cell(active: bool, age: Option<byte>)

  /** `board[i]`, or None (JavaScript's `undefined`) outside the board. */
  function ByteAt(board: Board, i: int): (r: Option<byte>)
    ensures r.Some? <==> 0 <= i < |board|
    ensures r.Some? ==> r.value == board[i]
  {
    if 0 <= i < |board| then Some(board[i]) else None
  }

  /**
   * getCell(x, y) on `board`: the cell's bytes start at (x*width + y)*4; it
   * is active when its red byte is positive (never outside the board) and
   * its age is its green byte.
   */
  function CellAt(board: Board, width: int, x: int, y: int): Cell {
    var offset := (x * width + y) * 4;
    var active := match ByteAt(board, offset)
      case Some(v) => v > 0
      case None => false;
    Cell(active, ByteAt(board, offset + 1))
  }

  // ---------------------------------------------------------------------------
  // The bounded history
  // ---------------------------------------------------------------------------

  /** The history after iterate pushes `b`: the oldest board goes once there are more than `cap`. */
  function Pushed(history: seq<Board>, b: Board, cap: int): seq<Board> {
    var h := history + [b];
    if |h| > cap then h[1..] else h
  }

  /** The history after goBack: the newest board goes unless it is the only one. */
  function Popped(history: seq<Board>): seq<Board> {
    if |history| > 1 then history[..|history| - 1] else history
  }

  /**
   * Pushing onto a history within its bound keeps it within the bound and
   * non-empty: it holds the newest boards, `b` last, as many as fit.
   */
  lemma PushedKeepsNewest(history: seq<Board>, b: Board, cap: int)
    requires 1 <= cap && |history| <= cap
    ensures var r := Pushed(history, b, cap);
      |r| == (if |history| < cap then |history| + 1 else cap) &&
      1 <= |r| <= cap && r[|r| - 1] == b &&
      r == (history + [b])[|history| + 1 - |r|..]
  {
  }

  /** Popping keeps a non-empty history non-empty; it keeps the oldest boards. */
  lemma PoppedKeepsOldest(history: seq<Board>)
    requires |history| >= 1
    ensures var r := Popped(history);
      |r| == (if |history| > 1 then |history| - 1 else 1) && r == history[..|r|]
  {
  }

  /**
   * goBack undoes iterate while the history is below its bound; at the bound
   * the oldest board is gone for good, and a bound of one keeps only `b`.
   */
  lemma GoBackAfterIterate(history: seq<Board>, b: Board, cap: int)
    requires 1 <= |history| <= cap
    ensures Popped(Pushed(history, b, cap)) ==
      if |history| < cap then history else if cap > 1 then history[1..] else [b]
  {
    var h := history + [b];
    if |history| == cap && cap > 1 {
      assert h[1..][..|h| - 2] == history[1..];
    } else if |history| < cap {
      assert h[..|h| - 1] == history;
    }
  }

  // ---------------------------------------------------------------------------
  // The automaton
  // ---------------------------------------------------------------------------

  /**
   * CellularAutomaton without its GL state: the history of boards (oldest
   * first), the board shown and the generation number. The shader it
   * compiles is `CaFragmentShader`, stated on its own; the step on the GPU
   * is the board passed to `Iterate`.
   */
  class CellularAutomaton {
    const historyCount: int
    const width: int
    const height: int
    const maxAge: int
    var history: seq<Board>
    var currentBoard: Board
    var currentGeneration: int

    /**
     * The history is never empty and never longer than `historyCount`, the
     * board shown is its newest, and the generation number is at least the
     * number of boards before it.
     */
    ghost predicate Valid()
      reads this
    {
      1 <= |history| <= historyCount && currentBoard == history[|history| - 1] &&
      currentGeneration >= |history| - 1
    }

    /**
     * new CellularAutomaton(...): `seedFn` fills the fresh board of
     * width*height*4 zero bytes; that board is the whole history.
     */
    constructor(width: int, height: int, naturalDeath: int, historyCount: int,
                seedFn: (Board, int, int) -> Board)
      requires width * height >= 0
      ensures Valid()
      ensures this.historyCount == if historyCount > 1 then historyCount else 1
      ensures this.width == width && this.height == height && maxAge == naturalDeath
      ensures history == [seedFn(Zeros(width * height * 4), width, height)]
      ensures currentBoard == history[0] && currentGeneration == 0
    {
      this.historyCount := if historyCount > 1 then historyCount else 1;
      this.width := width;
      this.height := height;
      maxAge := naturalDeath;
      var initial := seedFn(Zeros(width * height * 4), width, height);
      history := [initial];
      currentBoard := initial;
      currentGeneration := 0;
    }

    /** iterate(): `next` is the board the shader computed from the current one. */
    method Iterate(next: Board)
      requires Valid()
      modifies this
      ensures Valid()
      ensures history == Pushed(old(history), next, historyCount)
      ensures currentBoard == next
      ensures currentGeneration == old(currentGeneration) + 1
    {
      history := history + [next];
      currentBoard := next;
      if |history| > historyCount {
        history := history[1..];
      }
      currentGeneration := currentGeneration + 1;
    }

    /** goBack(): back one generation, unless only one board is left. */
    method GoBack()
      requires Valid()
      modifies this
      ensures Valid()
      ensures history == Popped(old(history))
      ensures currentGeneration == if |old(history)| > 1 then old(currentGeneration) - 1 else old(currentGeneration)
      ensures currentBoard == if |old(history)| > 1 then old(history)[|old(history)| - 2] else old(currentBoard)
    {
      if |history| > 1 {
        history := history[..|history| - 1];
        currentBoard := history[|history| - 1];
        currentGeneration := currentGeneration - 1;
      }
    }

    /** getCell(x, y): the cell of the newest board in the history. */
    function GetCell(x: int, y: int): (c: Cell)
      requires Valid()
      reads this
      ensures c == CellAt(history[|history| - 1], width, x, y)
    {
      CellAt(currentBoard, width, x, y)
    }

    /** getCurrentBoard(): the newest board in the history. */
    function CurrentBoard(): (b: Board)
      requires Valid()
      reads this
      ensures b == history[|history| - 1]
    {
      currentBoard
    }
  }

  /** ca_fragment_shader(survive, birth, naturalDeath), with its own template text. */
  function CaFragmentShader(survive: seq<int>, birth: seq<int>, naturalDeath: int): string {
    FragmentShader(CaSource(), survive, birth, naturalDeath)
  }

  /** The fixed text of ca_fragment_shader's template literal. */
  function CaSource(): CaText {
    CaText(
      "\nprecision mediump float;\n\nuniform sampler2D u_image;\n\nin vec2 v_texCoord;\n\nout vec4 outputColor;\n\nvoid main() {\n\t// survive: 1,2,3,4,5\n\t// birth: 3\n\tivec2 size = textureSize(u_image, 0);\n\tint neighbours = 0;\n\tfor(int x = -1; x < 2; x++) {\n\t\tint xCoord = int(v_texCoord.x) + x;\n\t\tif (xCoord < 0) {\n\t\t\txCoord = size.x - 1;\n\t\t} else if (xCoord > size.x - 1) {\n\t\t\txCoord = 0;\n\t\t}\n\t\tfor (int y = -1; y < 2; y++) {\n\t\t\tif (x == 0 && y == 0) continue;\n\t\t\tint yCoord = int(v_texCoord.y) + y;\n\t\t\tif (yCoord < 0) {\n\t\t\t\tyCoord = size.y - 1;\n\t\t\t} else if (yCoord > size.y - 1) {\n\t\t\t\tyCoord = 0;\n\t\t\t}\n\t\t\tvec4 value = texelFetch(u_image, ivec2(xCoord, yCoord), 0);\n\t\t\tif (value.r > 0.0) {\n\t\t\t\tneighbours += 1;\n\t\t\t}\n\t\t}\n\t}\n\n\tvec4 value = texelFetch(u_image, ivec2(v_texCoord), 0);\n\tbool alive = value.r > 0.0;\n\tint age = int(value.g * 255.0);\n\tif (alive) {\n\t\tif (!(",
      ")) {\n\t\t\talive = false;\n\t\t\tage = 0;\n\t\t} else {\n\t\t\tage += 1;\n\t\t}\n\t} else {\n\t\tage = 0;\n\t\tif (",
      ") {\n\t\t\talive = true;\n\t\t}\n\t}\n\n\toutputColor = vec4(alive, float(age)/255.0, float(neighbours)/8.0, 1);\n}\n")
  }
}

/**
 * The neighbour-kernel validator and weight-table builder (complex-shader.js,
 * makeNeighbourSetting). Every kernel's weight matrix is copied into one
 * table of `width * height * count` weights, `width` and `height` being the
 * largest kernel's, kernel k occupying the k-th `width * height` block row
 * by row; its value expression is type-checked in the given scope.
 */
module Kernels {
  import opened Wrappers
  import opened Ast
  import Checker
  import Arith

  /**
   * One entry of the neighbour-count configuration: its key, weight matrix,
   * value expression (already parsed), `type` and `overflow` settings.
   */
  datatype KernelDecl = KernelDecl(name: string, matrix: seq<seq<real>>, valuefn: Expr, kernelType: string, overflow: string)

  /** An element of the setting: the kernel with its checked expression, index and own size. */
  datatype Element = Element(name: string, valuefn: Expr, kernelType: string, index: nat, width: nat, height: nat, overflow: string)

  /**
   * The setting: the weight table and the largest width and height, which
   * are `None` (`Math.max()` of nothing) when there are no kernels.
   */
  datatype Setting = Setting(data: seq<real>, width: Option<nat>, height: Option<nat>, elements: seq<Element>)

  datatype KernelError = BadMatrix | ValueFnError(error: Checker.TypeError)

  // ---------------------------------------------------------------------------
  // Validation
  // ---------------------------------------------------------------------------

  /**
   * What the validation loop accepts: an odd number of rows, all as long as
   * the first. The number of columns may be even.
   */
  predicate ValidMatrix(m: seq<seq<real>>) {
    |m| % 2 == 1 && forall i :: 0 <= i < |m| ==> |m[i]| == |m[0]|
  }

  predicate AllValid(config: seq<KernelDecl>) {
    forall k :: 0 <= k < |config| ==> ValidMatrix(config[k].matrix)
  }

  /** The validation loops over every kernel and every row. */
  method ValidateMatrices(config: seq<KernelDecl>) returns (ok: bool)
    ensures ok <==> AllValid(config)
  {
    var k := 0;
    while k < |config|
      invariant 0 <= k <= |config|
      invariant forall k' :: 0 <= k' < k ==> ValidMatrix(config[k'].matrix)
    {
      var m := config[k].matrix;
      if |m| % 2 != 1 {
        return false;
      }
      var len := |m[0]|;
      var i := 0;
      while i < |m|
        invariant 0 <= i <= |m|
        invariant forall i' :: 0 <= i' < i ==> |m[i']| == len
      {
        if |m[i]| != len {
          return false;
        }
        i := i + 1;
      }
      k := k + 1;
    }
    return true;
  }

  /** The error message promises odd columns too, but a one-by-two matrix passes. */
  lemma EvenColumnsAccepted()
    ensures ValidMatrix([[1.0, 1.0]])
  {
  }

  // ---------------------------------------------------------------------------
  // Sizes
  // ---------------------------------------------------------------------------

  function Height(m: seq<seq<real>>): nat {
    |m|
  }

  /** A kernel's width, the length of its first row (a validated matrix has one). */
  function Width(m: seq<seq<real>>): nat {
    if m == [] then 0 else |m[0]|
  }

  /** `Math.max` over the kernels' heights. */
  function MaxHeight(config: seq<KernelDecl>): (h: nat)
    requires |config| > 0
    ensures forall k :: 0 <= k < |config| ==> Height(config[k].matrix) <= h
    ensures exists k :: 0 <= k < |config| && Height(config[k].matrix) == h
  {
    if |config| == 1 then Height(config[0].matrix)
    else
      var rest := MaxHeight(config[1..]);
      assert forall k :: 1 <= k < |config| ==> config[k] == config[1..][k - 1];
      if Height(config[0].matrix) >= rest then Height(config[0].matrix) else rest
  }

  /** `Math.max` over the kernels' widths. */
  function MaxWidth(config: seq<KernelDecl>): (w: nat)
    requires |config| > 0
    ensures forall k :: 0 <= k < |config| ==> Width(config[k].matrix) <= w
    ensures exists k :: 0 <= k < |config| && Width(config[k].matrix) == w
  {
    if |config| == 1 then Width(config[0].matrix)
    else
      var rest := MaxWidth(config[1..]);
      assert forall k :: 1 <= k < |config| ==> config[k] == config[1..][k - 1];
      if Width(config[0].matrix) >= rest then Width(config[0].matrix) else rest
  }

  // ---------------------------------------------------------------------------
  // The weight table
  // ---------------------------------------------------------------------------

  /** Weight `q` of a `width`-wide block: row `q / width`, column `q % width`, 0 outside the matrix. */
  function BlockWeight(m: seq<seq<real>>, width: nat, q: nat): real
    requires width > 0 && ValidMatrix(m)
  {
    var i := q / width;
    var j := q % width;
    if i < |m| && j < |m[0]| then m[i][j] else 0.0
  }

  /** Weight `p` of the table: kernel `p / (width * height)`, at place `p % (width * height)` of its block. */
  function WeightAt(config: seq<KernelDecl>, width: nat, height: nat, p: nat): real
    requires AllValid(config)
    requires 0 <= p < width * height * |config|
  {
    var area := width * height;
    Arith.MulNonneg(width, height);
    BlockPlace(area, |config|, p);
    BlockWeight(config[p / area].matrix, width, p % area)
  }

  /** A place in the table lies in some kernel's block. */
  lemma BlockPlace(area: nat, count: nat, p: nat)
    requires p < area * count
    ensures area > 0 && p / area < count
  {
    assert area * count > 0;
    Arith.MulMonotoneWhen(count, p / area, area);
  }

  /** The weight table the source builds: every place as given by `WeightAt`. */
  function Weights(config: seq<KernelDecl>, width: nat, height: nat): (data: seq<real>)
    requires AllValid(config)
    ensures |data| == width * height * |config|
  {
    seq(width * height * |config|, p requires 0 <= p < width * height * |config| => WeightAt(config, width, height, p))
  }

  /**
   * Where the builder stores a weight: kernel k's entry (i, j) is at
   * `width * height * k + width * i + j`, and a place whose row or column
   * lies outside kernel k's own matrix holds 0.
   */
  lemma StoredAt(config: seq<KernelDecl>, width: nat, height: nat, k: nat, i: nat, j: nat)
    requires AllValid(config)
    requires k < |config| && i < height && j < width
    ensures width * height * k + width * i + j < width * height * |config|
    ensures var m := config[k].matrix;
      WeightAt(config, width, height, width * height * k + width * i + j) ==
        if i < |m| && j < |m[0]| then m[i][j] else 0.0
  {
    var area := width * height;
    var q := width * i + j;
    Arith.MulMonotone(i, height - 1, width);
    assert q < area by {
      assert width * (height - 1) + width == area;
    }
    Arith.MulMonotone(k, |config| - 1, area);
    assert area * k + q < area * |config| by {
      assert area * (|config| - 1) + area == area * |config|;
    }
    assert width * height * k == area * k;
    var p := area * k + q;
    Arith.DivModOf(p, area, k, q);
    Arith.DivModOf(q, width, i, j);
    assert width * height * |config| == area * |config|;
  }

  /**
   * One kernel's block, stored row by row into the zeroed places
   * `base..base + area` of the table (the builder's inner loops).
   */
  method FillKernel(data: array<real>, base: nat, width: nat, area: nat, m: seq<seq<real>>)
    requires ValidMatrix(m) && width > 0 && |m[0]| <= width && |m| * width <= area
    requires base + area <= data.Length
    requires forall p :: base <= p < base + area ==> data[p] == 0.0
    modifies data
    ensures forall p :: base <= p < base + area ==> data[p] == BlockWeight(m, width, p - base)
    ensures forall p :: 0 <= p < data.Length && !(base <= p < base + area) ==> data[p] == old(data[p])
  {
    var h := |m|;
    var i := 0;
    var row := base;
    while i < h
      invariant 0 <= i <= h
      invariant row - base == i * width
      invariant row <= base + area
      invariant forall p :: base <= p < base + area ==>
        data[p] == if p < row then BlockWeight(m, width, p - base) else 0.0
      invariant forall p :: 0 <= p < data.Length && !(base <= p < base + area) ==> data[p] == old(data[p])
    {
      Arith.MulMonotone(i + 1, h, width);
      assert (i + 1) * width == i * width + width;
      FillMatrixRow(data, base, row, width, area, m, i);
      i := i + 1;
      row := row + width;
    }
    forall q | row - base <= q < area
      ensures BlockWeight(m, width, q) == 0.0
    {
      Arith.DivModOf(q, width, q / width, q % width);
      Arith.MulMonotoneWhen(q / width + 1, h, width);
      assert (q / width + 1) * width == q / width * width + width;
    }
  }

  /** The inner loop: row `i` of the matrix, stored at `row`, followed by zeros up to the block's width. */
  method FillMatrixRow(data: array<real>, base: nat, row: nat, width: nat, area: nat, m: seq<seq<real>>, i: nat)
    requires ValidMatrix(m) && width > 0 && |m[0]| <= width && i < |m|
    requires base <= row && row - base == i * width && row + width <= base + area <= data.Length
    requires forall p :: base <= p < base + area ==>
      data[p] == if p < row then BlockWeight(m, width, p - base) else 0.0
    modifies data
    ensures forall p :: base <= p < base + area ==>
      data[p] == if p < row + width then BlockWeight(m, width, p - base) else 0.0
    ensures forall p :: 0 <= p < data.Length && !(base <= p < base + area) ==> data[p] == old(data[p])
  {
    var w := |m[0]|;
    var j := 0;
    while j < w
      invariant 0 <= j <= w
      invariant forall p :: base <= p < base + area ==>
        data[p] == if p < row + j then BlockWeight(m, width, p - base) else 0.0
      invariant forall p :: 0 <= p < data.Length && !(base <= p < base + area) ==> data[p] == old(data[p])
    {
      Arith.DivModOf(row - base + j, width, i, j);
      data[row + j] := m[i][j];
      j := j + 1;
    }
    forall q | row - base + w <= q < row - base + width
      ensures BlockWeight(m, width, q) == 0.0
    {
      Arith.DivModOf(q, width, i, q - (row - base));
    }
  }

  /** One iteration of the builder's loop over the kernels, on the table. */
  method FillNext(data: array<real>, config: seq<KernelDecl>, width: nat, height: nat, index: nat)
    requires AllValid(config) && index < |config|
    requires forall k :: 0 <= k < |config| ==> Height(config[k].matrix) <= height && Width(config[k].matrix) <= width
    requires data.Length == width * height * |config|
    requires forall p :: 0 <= p < data.Length ==>
      data[p] == if p < width * height * index then WeightAt(config, width, height, p) else 0.0
    modifies data
    ensures forall p :: 0 <= p < data.Length ==>
      data[p] == if p < width * height * (index + 1) then WeightAt(config, width, height, p) else 0.0
  {
    var area := width * height;
    Arith.MulNonneg(width, height);
    Arith.MulMonotone(index + 1, |config|, area);
    assert area * (index + 1) == area * index + area;
    if area > 0 {
      Arith.MulMonotone(Height(config[index].matrix), height, width);
      FillKernel(data, area * index, width, area, config[index].matrix);
      forall p | area * index <= p < area * (index + 1)
        ensures data[p] == WeightAt(config, width, height, p)
      {
        Arith.DivModOf(p, area, index, p - area * index);
      }
    }
  }

  // ---------------------------------------------------------------------------
  // The setting
  // ---------------------------------------------------------------------------

  /**
   * How a kernel's value expression is checked: makeNeighbourSetting calls
   * `typecheck(valuefn, scope)` for every kernel with the one scope it is
   * given, so the check is a function of the expression alone; `TypecheckIn`
   * is the type checker with that scope fixed.
   */
  type Check = Expr -> Result<Expr, Checker.TypeError>

  function TypecheckIn(scope: Scope): Check {
    e => Checker.AnalyzeExpr(e, scope)
  }

  /**
   * The elements of the kernels before `n`, in iteration order, each with
   * its index, own size and value expression as `check` annotates it; the
   * first expression that fails to check is the error.
   */
  function Elements(config: seq<KernelDecl>, check: Check, n: nat): Result<seq<Element>, KernelError>
    requires n <= |config|
  {
    if n == 0 then Ok([])
    else
      var before :- Elements(config, check, n - 1);
      var d := config[n - 1];
      match check(d.valuefn)
      case Err(e) => Err(ValueFnError(e))
      case Ok(fn) => Ok(before + [Element(d.name, fn, d.kernelType, n - 1, Width(d.matrix), Height(d.matrix), d.overflow)])
  }

  /** Once a kernel fails to check, the elements of every longer prefix fail too. */
  lemma {:induction false} ElementsErrPersists(config: seq<KernelDecl>, check: Check, n: nat, m: nat)
    requires n <= m <= |config|
    requires Elements(config, check, n).Err?
    ensures Elements(config, check, m) == Elements(config, check, n)
    decreases m
  {
    if m > n {
      ElementsErrPersists(config, check, n, m - 1);
    }
  }

  /** makeNeighbourSetting's result when every value expression is checked by `check`. */
  function SettingWith(config: seq<KernelDecl>, check: Check): Result<Setting, KernelError> {
    if !AllValid(config) then Err(BadMatrix)
    else if config == [] then Ok(Setting([], None, None, []))
    else
      var width, height := MaxWidth(config), MaxHeight(config);
      var elements :- Elements(config, check, |config|);
      Ok(Setting(Weights(config, width, height), Some(width), Some(height), elements))
  }

  /** makeNeighbourSetting(config, scope)'s result. */
  function NeighbourSetting(config: seq<KernelDecl>, scope: Scope): Result<Setting, KernelError> {
    SettingWith(config, TypecheckIn(scope))
  }

  /** A table holding `WeightAt` at every place is the table `Weights` describes. */
  lemma TableComplete(data: seq<real>, config: seq<KernelDecl>, width: nat, height: nat)
    requires AllValid(config) && |data| == width * height * |config|
    requires forall p :: 0 <= p < |data| ==> data[p] == WeightAt(config, width, height, p)
    ensures data == Weights(config, width, height)
  {
  }

  /** When the elements of a prefix fail, the whole setting fails with the same error. */
  lemma SettingFails(config: seq<KernelDecl>, check: Check, n: nat)
    requires AllValid(config) && 0 < n <= |config|
    requires Elements(config, check, n).Err?
    ensures SettingWith(config, check) == Err(Elements(config, check, n).error)
  {
    ElementsErrPersists(config, check, n, |config|);
  }

  /** The end of one iteration of the builder's loop: check kernel `index` and push its element. */
  method AddElement(config: seq<KernelDecl>, check: Check, index: nat, elements: seq<Element>) returns (r: Result<seq<Element>, KernelError>)
    requires index < |config|
    requires Elements(config, check, index) == Ok(elements)
    ensures r == Elements(config, check, index + 1)
  {
    var d := config[index];
    var valuefn := check(d.valuefn);
    if valuefn.Err? {
      return Err(ValueFnError(valuefn.error));
    }
    r := Ok(elements + [Element(d.name, valuefn.value, d.kernelType, index, Width(d.matrix), Height(d.matrix), d.overflow)]);
  }

  /** makeNeighbourSetting: validate, size the table, then fill it and check each kernel in turn. */
  method MakeNeighbourSetting(config: seq<KernelDecl>, scope: Scope) returns (r: Result<Setting, KernelError>)
    ensures r == NeighbourSetting(config, scope)
  {
    var ok := ValidateMatrices(config);
    if !ok {
      return Err(BadMatrix);
    }
    var count := |config|;
    if count == 0 {
      // Math.max() of nothing is -Infinity and the table has no places
      return Ok(Setting([], None, None, []));
    }
    r := BuildSetting(config, TypecheckIn(scope));
  }

  /** The table and elements of a validated, non-empty configuration. */
  method BuildSetting(config: seq<KernelDecl>, check: Check) returns (r: Result<Setting, KernelError>)
    requires AllValid(config) && config != []
    ensures r == SettingWith(config, check)
  {
    var count := |config|;
    var height := MaxHeight(config);
    var width := MaxWidth(config);
    var area := width * height;
    Arith.MulNonneg(width, height);
    Arith.MulNonneg(area, count);
    var data := new real[area * count](_ => 0.0);
    var elements: seq<Element> := [];
    var index := 0;
    ghost var filled := 0;
    while index < count
      invariant 0 <= index <= count
      invariant data.Length == area * count
      invariant filled == area * index
      invariant forall p :: 0 <= p < data.Length ==>
        data[p] == if p < filled then WeightAt(config, width, height, p) else 0.0
      invariant Elements(config, check, index) == Ok(elements)
    {
      FillNext(data, config, width, height, index);
      assert area * (index + 1) == filled + area;
      filled := filled + area;
      var next := AddElement(config, check, index, elements);
      if next.Err? {
        SettingFails(config, check, index + 1);
        return Err(next.error);
      }
      elements := next.value;
      index := index + 1;
    }
    TableComplete(data[..], config, width, height);
    return Ok(Setting(data[..], Some(width), Some(height), elements));
  }

  /**
   * The elements are the kernels in order: element k is kernel k with index
   * k, its own width and height, and its value expression as `check`
   * annotates it.
   */
  lemma {:induction false} ElementsInOrder(config: seq<KernelDecl>, check: Check, n: nat)
    requires n <= |config|
    requires Elements(config, check, n).Ok?
    ensures var es := Elements(config, check, n).value;
      |es| == n &&
      forall k :: 0 <= k < n ==>
        && es[k].name == config[k].name && es[k].index == k
        && es[k].width == Width(config[k].matrix) && es[k].height == Height(config[k].matrix)
        && es[k].kernelType == config[k].kernelType && es[k].overflow == config[k].overflow
        && check(config[k].valuefn) == Ok(es[k].valuefn)
  {
    if n > 0 {
      ElementsInOrder(config, check, n - 1);
    }
  }

  /** The elements are built exactly when every kernel's value expression checks. */
  lemma {:induction false} ElementsOk(config: seq<KernelDecl>, check: Check, n: nat)
    requires n <= |config|
    ensures Elements(config, check, n).Ok? <==> forall k :: 0 <= k < n ==> check(config[k].valuefn).Ok?
  {
    if n > 0 {
      ElementsOk(config, check, n - 1);
      if Elements(config, check, n).Ok? {
        assert check(config[n - 1].valuefn).Ok?;
      } else if Elements(config, check, n - 1).Ok? {
        assert !check(config[n - 1].valuefn).Ok?;
      } else {
        var k :| 0 <= k < n - 1 && !check(config[k].valuefn).Ok?;
      }
    }
  }
}

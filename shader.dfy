/**
 * The shader generator (complex-shader.js: the state accessor generators,
 * generateNeighbourCountFunc and generateShader).
 *
 * Every template the source passes through trimCode is written here as the
 * lines trimCode makes of it (`Strings.Lines`; `Strings.TrimMargin` proves
 * that a template of that form trims to exactly those lines). That holds
 * when the names spliced into a template contain no newline and a kernel
 * type, which starts a template line, is non-empty and starts with a
 * character that is not white space. The loops that append to the code are
 * methods proved against the functions that describe their text.
 */
module Shader {
  import opened Wrappers
  import opened Strings
  import opened Ast
  import Checker
  import Layout
  import Kernels
  import opened Codegen

  // ---------------------------------------------------------------------------
  // State accessors
  // ---------------------------------------------------------------------------

  /** generateStateGetterFlag: the flag's bit, shifted by `8 - bit`. */
  function GetterFlag(name: string, byte: nat, bit: nat): string {
    Lines(0, [
      "bool get_cell_state_" + name + "(in ivec4 cell) {",
      "    return cell[" + IntToString(byte) + "] >> " + IntToString(8 - bit) + " & 0b1; // TODO: check if endianness is correct",
      "}"])
  }

  /** generateStateSetterFlag: ORs the flag in at `8 - bit`. */
  function SetterFlag(name: string, byte: nat, bit: nat): string {
    Lines(0, [
      "void set_cell_state_" + name + "(inout ivec4 cell, in bool val) {",
      "    cell[" + IntToString(byte) + "] |= (val ? 1 : 0) << " + IntToString(8 - bit) + ";",
      "}"])
  }

  /** Spans as the packer makes them: each within one byte, `from <= to`. */
  predicate SpansOk(spans: seq<Layout.Span>) {
    Layout.FieldInBytes(Layout.NumberAt(spans))
  }

  /** `(2 ** length - 1).toString(16)` for a span of `length` bits. */
  function SpanMask(s: Layout.Span): string
    requires s.from <= s.to
  {
    Mask(s.to - s.from + 1)
  }

  /**
   * The shift of span `k` in the assembled value: the number of bits of the
   * spans after it, so the first span holds the most significant bits.
   */
  function Shift(spans: seq<Layout.Span>, k: nat): int
    requires k < |spans|
  {
    Layout.TotalLength(spans[k + 1..])
  }

  function GetterSpanLine(s: Layout.Span, shift: int): string
    requires s.from <= s.to
  {
    "val |= (cell_ints[" + IntToString(s.byte) + "] >> " + IntToString(8 - s.to) + " & 0x" + SpanMask(s) + ") << " + IntToString(shift) + ";"
  }

  function SetterSpanLine(s: Layout.Span, shift: int): string
    requires s.from <= s.to
  {
    "cell[" + IntToString(s.byte) + "] |= ((val >> " + IntToString(shift) + ") & 0x" + SpanMask(s) + " << " + IntToString(8 - s.to) + ";"
  }

  /** The lines of the first `i` spans of a multi-span getter, span `k` shifted by `Shift(spans, k)`. */
  function GetterSpans(spans: seq<Layout.Span>, i: nat): string
    requires SpansOk(spans) && i <= |spans|
  {
    if i == 0 then ""
    else GetterSpans(spans, i - 1) + Lines(1, [GetterSpanLine(spans[i - 1], Shift(spans, i - 1))])
  }

  function SetterSpans(spans: seq<Layout.Span>, i: nat): string
    requires SpansOk(spans) && i <= |spans|
  {
    if i == 0 then ""
    else SetterSpans(spans, i - 1) + Lines(1, [SetterSpanLine(spans[i - 1], Shift(spans, i - 1))])
  }

  function GetterHeader(name: string): string {
    "int get_cell_state_" + name + "(in ivec4 cell) {"
  }

  function SetterHeader(name: string): string {
    "int set_cell_state_" + name + "(inout ivec4 cell, in int val) {"
  }

  /** A getter of a number held in one span. */
  function GetterSingle(name: string, s: Layout.Span): string
    requires s.from <= s.to
  {
    Lines(0, [GetterHeader(name), "    return cell[" + IntToString(s.byte) + "] >> " + IntToString(8 - s.to) + " & 0x" + SpanMask(s) + ";", "}"])
  }

  function SetterSingle(name: string, s: Layout.Span): string
    requires s.from <= s.to
  {
    Lines(0, [SetterHeader(name), "    cell[" + IntToString(s.byte) + "] |= (val & 0x" + SpanMask(s) + ") << " + IntToString(8 - s.to) + ";", "}"])
  }

  /**
   * A closing brace line. Templates without interpolation are kept behind
   * functions like this one, so the verifier does not unfold their text.
   */
  function Brace(): seq<string> {
    ["}"]
  }

  function ReturnVal(): seq<string> {
    ["return val;"]
  }

  /** The opening and closing of a multi-span getter, which assembles the number in `val`. */
  function GetterOpen(name: string): string {
    Lines(0, [GetterHeader(name), "    int val = 0;"])
  }

  function GetterClose(): string {
    Lines(1, ReturnVal()) + Lines(0, Brace())
  }

  /** generateStateGetterNumber's text. */
  function GetterNumber(name: string, spans: seq<Layout.Span>): string
    requires SpansOk(spans)
  {
    if |spans| == 1 then GetterSingle(name, spans[0])
    else GetterOpen(name) + GetterSpans(spans, |spans|) + GetterClose()
  }

  /** generateStateSetterNumber's text. */
  function SetterNumber(name: string, spans: seq<Layout.Span>): string
    requires SpansOk(spans)
  {
    if |spans| == 1 then SetterSingle(name, spans[0])
    else Lines(0, [SetterHeader(name)]) + SetterSpans(spans, |spans|) + Lines(0, Brace())
  }

  /** The last span is not shifted, and each other one sits just above the next. */
  lemma ShiftsDescend(spans: seq<Layout.Span>, k: nat)
    requires k < |spans|
    ensures k == |spans| - 1 ==> Shift(spans, k) == 0
    ensures k < |spans| - 1 ==> Shift(spans, k) == Shift(spans, k + 1) + Layout.SpanLength(spans[k + 1])
  {
    if k < |spans| - 1 {
      assert spans[k + 1..][1..] == spans[k + 2..];
    }
  }

  /** One step of the accessor loops: the running total loses the span's length. */
  lemma RemainingStep(spans: seq<Layout.Span>, i: nat)
    requires i < |spans|
    ensures Layout.TotalLength(spans[i..]) - Layout.SpanLength(spans[i]) == Shift(spans, i)
  {
    assert spans[i..][1..] == spans[i + 1..];
  }

  lemma GetterSpansSnoc(spans: seq<Layout.Span>, i: nat)
    requires SpansOk(spans) && i < |spans|
    ensures GetterSpans(spans, i + 1) == GetterSpans(spans, i) + Lines(1, [GetterSpanLine(spans[i], Shift(spans, i))])
  {
  }

  lemma SetterSpansSnoc(spans: seq<Layout.Span>, i: nat)
    requires SpansOk(spans) && i < |spans|
    ensures SetterSpans(spans, i + 1) == SetterSpans(spans, i) + Lines(1, [SetterSpanLine(spans[i], Shift(spans, i))])
  {
  }

  /** generateStateGetterNumber: a single span gets a one-line body; otherwise one line per span. */
  method GenerateStateGetterNumber(name: string, spans: seq<Layout.Span>) returns (code: string)
    requires SpansOk(spans)
    ensures code == GetterNumber(name, spans)
  {
    if |spans| == 1 {
      code := GetterSingle(name, spans[0]);
    } else {
      var body := GetterSpanLoop(spans);
      code := GetterOpen(name) + body + GetterClose();
    }
  }

  /** The loop of generateStateGetterNumber, with the running `remaining` as each line's shift. */
  method GetterSpanLoop(spans: seq<Layout.Span>) returns (body: string)
    requires SpansOk(spans)
    ensures body == GetterSpans(spans, |spans|)
  {
    body := "";
    var remaining := Layout.TotalLength(spans);
    var i := 0;
    assert spans[0..] == spans;
    while i < |spans|
      invariant 0 <= i <= |spans|
      invariant remaining == Layout.TotalLength(spans[i..])
      invariant body == GetterSpans(spans, i)
    {
      remaining, body := GetterSpanStep(spans, i, remaining, body);
      i := i + 1;
    }
  }

  /** One pass of the getter loop: `remaining` loses the span's length, then the span's line is added. */
  method GetterSpanStep(spans: seq<Layout.Span>, i: nat, remaining0: int, body0: string) returns (remaining: int, body: string)
    requires SpansOk(spans) && i < |spans|
    requires remaining0 == Layout.TotalLength(spans[i..]) && body0 == GetterSpans(spans, i)
    ensures remaining == Layout.TotalLength(spans[i + 1..]) && body == GetterSpans(spans, i + 1)
  {
    var s := spans[i];
    var length := s.to - s.from + 1;
    RemainingStep(spans, i);
    GetterSpansSnoc(spans, i);
    remaining := remaining0 - length;
    body := body0 + Lines(1, [GetterSpanLine(s, remaining)]);
  }

  /** generateStateSetterNumber: a single span gets a one-line body; otherwise one line per span. */
  method GenerateStateSetterNumber(name: string, spans: seq<Layout.Span>) returns (code: string)
    requires SpansOk(spans)
    ensures code == SetterNumber(name, spans)
  {
    if |spans| == 1 {
      code := SetterSingle(name, spans[0]);
    } else {
      var body := SetterSpanLoop(spans);
      code := Lines(0, [SetterHeader(name)]) + body + Lines(0, Brace());
    }
  }

  /** The loop of generateStateSetterNumber, with the running `remaining` as each line's shift. */
  method SetterSpanLoop(spans: seq<Layout.Span>) returns (body: string)
    requires SpansOk(spans)
    ensures body == SetterSpans(spans, |spans|)
  {
    body := "";
    var remaining := Layout.TotalLength(spans);
    var i := 0;
    assert spans[0..] == spans;
    while i < |spans|
      invariant 0 <= i <= |spans|
      invariant remaining == Layout.TotalLength(spans[i..])
      invariant body == SetterSpans(spans, i)
    {
      remaining, body := SetterSpanStep(spans, i, remaining, body);
      i := i + 1;
    }
  }

  /** One pass of the setter loop: `remaining` loses the span's length, then the span's line is added. */
  method SetterSpanStep(spans: seq<Layout.Span>, i: nat, remaining0: int, body0: string) returns (remaining: int, body: string)
    requires SpansOk(spans) && i < |spans|
    requires remaining0 == Layout.TotalLength(spans[i..]) && body0 == SetterSpans(spans, i)
    ensures remaining == Layout.TotalLength(spans[i + 1..]) && body == SetterSpans(spans, i + 1)
  {
    var s := spans[i];
    var length := s.to - s.from + 1;
    RemainingStep(spans, i);
    SetterSpansSnoc(spans, i);
    remaining := remaining0 - length;
    body := body0 + Lines(1, [SetterSpanLine(s, remaining)]);
  }

  // ---------------------------------------------------------------------------
  // Neighbour counting functions
  // ---------------------------------------------------------------------------

  /** How samples outside the board are treated: wrapped around, clamped to the border, or skipped. */
  function OverflowLines(overflow: string): seq<string> {
    if overflow == "wrap" then [
      "cx = (cx + board_size.x) % board_size.x;",
      "cy = (cy + board_size.y) % board_size.y;"]
    else if overflow == "border" then [
      "if (cx < 0) {",
      "    cx = 0;",
      "} else if (cx >= board_size.x) {",
      "    cx = board_size.x - 1;",
      "}",
      "if (cy < 0) {",
      "    cy = 0;",
      "} else if (cy >= board_size.y) {",
      "    cy = board_size.y - 1;",
      "}"]
    else [
      "if (cx < 0 || cx >= board_size.x || cy < 0 || cy >= board_size.y) {",
      "    continue;",
      "}"]
  }

  /** The opening of a counting function: its signature and the two loops over the kernel's offsets. */
  function CountHeader(el: Kernels.Element): seq<string> {
    [ el.kernelType + " count_neighbours_" + el.name + "() {",
      "    float count = 0.0;",
      "    for (int ix = 0; ix < " + IntToString(el.width) + "; ix++) {",
      "        for (int iy = 0; iy < " + IntToString(el.height) + "; iy++) {",
      "            int cx = coord.x + ix - " + IntToString(el.width / 2) + ";",
      "            int cy = coord.y + iy - " + IntToString(el.height / 2) + ";"]
  }

  /** The body of the inner loop: weight times value of the sampled cell. */
  function CountSample(el: Kernels.Element, value: string): seq<string> {
    [ "float mult = texelFetch(neighbour_count_texture, ivec3(ix, iy, " + IntToString(el.index) + "), 0).x;",
      "ivec4 cell = get_cell_at(cx, cy);",
      "float value = float(" + value + ");",
      "count += mult * value;"]
  }

  /** An `int` kernel returns its count converted to int; any other type returns the float count. */
  function CountReturn(kernelType: string): string {
    if kernelType == "int" then "return int(count);" else "return count;"
  }

  /** The text of a counting function whose sampled value renders as `value`. */
  function CountText(el: Kernels.Element, value: string): string {
    Lines(0, CountHeader(el)) + Lines(3, OverflowLines(el.overflow)) + Lines(3, CountSample(el, value))
      + Lines(2, Brace()) + Lines(1, Brace()) + Lines(1, [CountReturn(el.kernelType)]) + Lines(0, Brace())
  }

  /** generateNeighbourCountFunc: fails only when the kernel's value expression cannot be rendered. */
  function CountFunc(el: Kernels.Element): Result<string, GenError> {
    var value :- GenerateExpression(el.valuefn);
    Ok(CountText(el, value))
  }

  /**
   * The texts `render` makes of the elements, one after another; the first
   * element it fails on gives the error.
   */
  function Joined(elements: seq<Kernels.Element>, render: Kernels.Element -> Result<string, GenError>): Result<string, GenError> {
    if elements == [] then Ok("")
    else
      var before :- Joined(elements[..|elements| - 1], render);
      var text :- render(elements[|elements| - 1]);
      Ok(before + text)
  }

  /** The counting functions of all elements, in order. */
  function CountFuncs(elements: seq<Kernels.Element>): Result<string, GenError> {
    Joined(elements, CountFunc)
  }

  /** The loop of generateShader that emits one counting function per element. */
  method GenerateCountFuncs(elements: seq<Kernels.Element>) returns (r: Result<string, GenError>)
    ensures r == CountFuncs(elements)
  {
    var code := "";
    var i := 0;
    while i < |elements|
      invariant 0 <= i <= |elements|
      invariant Joined(elements[..i], CountFunc) == Ok(code)
    {
      JoinedSnoc(elements, CountFunc, i);
      var f := CountFunc(elements[i]);
      if f.Err? {
        JoinedErrPersists(elements, CountFunc, i + 1, |elements|);
        assert elements[..|elements|] == elements;
        return Err(f.error);
      }
      code := code + f.value;
      i := i + 1;
    }
    assert elements[..i] == elements;
    return Ok(code);
  }

  /** One more element: its text goes after the texts before it, or its error ends the join. */
  lemma JoinedSnoc(elements: seq<Kernels.Element>, render: Kernels.Element -> Result<string, GenError>, i: nat)
    requires i < |elements|
    ensures Joined(elements[..i + 1], render) ==
      match Joined(elements[..i], render)
      case Err(e) => Err(e)
      case Ok(before) =>
        match render(elements[i])
        case Err(e) => Err(e)
        case Ok(text) => Ok(before + text)
  {
    assert elements[..i + 1][..i] == elements[..i];
  }

  /** Once a prefix fails, every longer prefix fails the same way. */
  lemma {:induction false} JoinedErrPersists(elements: seq<Kernels.Element>, render: Kernels.Element -> Result<string, GenError>, n: nat, m: nat)
    requires n <= m <= |elements|
    requires Joined(elements[..n], render).Err?
    ensures Joined(elements[..m], render) == Joined(elements[..n], render)
    decreases m
  {
    if m > n {
      JoinedErrPersists(elements, render, n, m - 1);
      assert elements[..m][..m - 1] == elements[..m - 1];
    }
  }

  /** The texts are joined exactly when every element renders. */
  lemma {:induction false} JoinedOk(elements: seq<Kernels.Element>, render: Kernels.Element -> Result<string, GenError>)
    ensures Joined(elements, render).Ok? <==> forall k :: 0 <= k < |elements| ==> render(elements[k]).Ok?
    decreases |elements|
  {
    if elements != [] {
      var n := |elements| - 1;
      var init := elements[..n];
      JoinedOk(init, render);
      if Joined(elements, render).Ok? {
        forall k | 0 <= k < |elements|
          ensures render(elements[k]).Ok?
        {
          if k < n {
            assert elements[k] == init[k];
          }
        }
      } else if Joined(init, render).Err? {
        var k :| 0 <= k < n && render(init[k]).Err?;
        assert elements[k] == init[k];
      }
    }
  }

  // ---------------------------------------------------------------------------
  // The shader
  // ---------------------------------------------------------------------------

  /** The struct type of `cell`: one property per state variable, `Int` for a number and `Boolean` for a flag. */
  function CellType(layout: seq<Layout.Entry>): (t: Type)
    ensures t.Struct? && |t.properties| == |layout|
    ensures forall i :: 0 <= i < |layout| ==>
      t.properties[i].name == layout[i].name &&
      t.properties[i].ty == (if layout[i].field.NumberAt? then Int else Boolean)
  {
    Struct(seq(|layout|, i requires 0 <= i < |layout| =>
      Property(layout[i].name, if layout[i].field.NumberAt? then Int else Boolean)))
  }

  /** The scope the kernels' value expressions are checked in: `cell` alone, built in. */
  function CellScope(layout: seq<Layout.Entry>): Scope {
    map["cell" := ScopeEntry(CellType(layout), BuiltIn)]
  }

  /** The type of a neighbour count: `Int` for an `int` kernel, `Float` for any other. */
  function CountType(el: Kernels.Element): Type {
    if el.kernelType == "int" then Int else Float
  }

  /** The scope with every element's count added, built in; a later name overwrites an earlier one. */
  function WithKernels(sc: Scope, elements: seq<Kernels.Element>): Scope {
    if elements == [] then sc
    else
      var last := elements[|elements| - 1];
      WithKernels(sc, elements[..|elements| - 1])[last.name := ScopeEntry(CountType(last), BuiltIn)]
  }

  /** The loop of generateShader that adds the neighbour counts to the scope. */
  method AddKernelNames(sc: Scope, elements: seq<Kernels.Element>) returns (scope: Scope)
    ensures scope == WithKernels(sc, elements)
  {
    scope := sc;
    var i := 0;
    while i < |elements|
      invariant 0 <= i <= |elements|
      invariant scope == WithKernels(sc, elements[..i])
    {
      assert elements[..i + 1][..i] == elements[..i];
      var el := elements[i];
      scope := scope[el.name := ScopeEntry(CountType(el), BuiltIn)];
      i := i + 1;
    }
    assert elements[..i] == elements;
  }

  /** After the counts are added, the scope holds the names it held and the elements' names. */
  lemma {:induction false} WithKernelsKeys(sc: Scope, elements: seq<Kernels.Element>)
    ensures WithKernels(sc, elements).Keys == sc.Keys + set k | 0 <= k < |elements| :: elements[k].name
    decreases |elements|
  {
    if elements != [] {
      var n := |elements| - 1;
      WithKernelsKeys(sc, elements[..n]);
      assert forall k :: 0 <= k < n ==> elements[..n][k] == elements[k];
      assert (set k | 0 <= k < |elements| :: elements[k].name)
        == (set k | 0 <= k < n :: elements[..n][k].name) + {elements[n].name};
    }
  }

  /** A name no element has keeps its entry. */
  lemma {:induction false} WithKernelsOther(sc: Scope, elements: seq<Kernels.Element>, x: string)
    requires x in sc
    requires forall k :: 0 <= k < |elements| ==> elements[k].name != x
    ensures x in WithKernels(sc, elements) && WithKernels(sc, elements)[x] == sc[x]
    decreases |elements|
  {
    if elements != [] {
      var n := |elements| - 1;
      WithKernelsOther(sc, elements[..n], x);
    }
  }

  /** An element's name is bound to its count, built in, unless a later element has the same name. */
  lemma {:induction false} WithKernelsLast(sc: Scope, elements: seq<Kernels.Element>, k: nat)
    requires k < |elements|
    requires forall j :: k < j < |elements| ==> elements[j].name != elements[k].name
    ensures elements[k].name in WithKernels(sc, elements)
    ensures WithKernels(sc, elements)[elements[k].name] == ScopeEntry(CountType(elements[k]), BuiltIn)
    decreases |elements|
  {
    var n := |elements| - 1;
    if k < n {
      var init := elements[..n];
      assert init[k] == elements[k];
      WithKernelsLast(sc, init, k);
    }
  }

  /** The scopes the generator builds have the shape its expression generator relies on. */
  lemma {:induction false} KernelScopeShape(layout: seq<Layout.Entry>, elements: seq<Kernels.Element>)
    ensures ShaderScope(CellScope(layout))
    ensures ShaderScope(WithKernels(CellScope(layout), elements))
    decreases |elements|
  {
    if elements != [] {
      KernelScopeShape(layout, elements[..|elements| - 1]);
    }
  }

  /**
   * A kernel's value expression is checked before any count is added to the
   * scope, so it can name no variable but `cell`.
   */
  lemma ValueFnSeesOnlyCell(layout: seq<Layout.Entry>, x: string, note: Note)
    requires x != "cell"
    ensures Checker.AnalyzeExpr(Access([x], note), CellScope(layout)) == Err(Checker.NotDefined(x))
  {
  }

  /** The shader's configuration: the state variables, the kernels, and the parsed program. */
  datatype ShaderConfig = ShaderConfig(state: seq<Layout.FieldDecl>, kernels: seq<Kernels.KernelDecl>, program: Program)

  /** What generateShader throws, by the stage that throws it. */
  datatype ShaderError =
    | LayoutFailed(layoutError: Layout.LayoutError)
    | SettingFailed(kernelError: Kernels.KernelError)
    | ProgramFailed(typeError: Checker.TypeError)
    | GenerationFailed(genError: GenError)

  /** The analysis stages of generateShader: the state layout, the neighbour setting and the checked program. */
  function Analyze(config: ShaderConfig): (r: Result<(seq<Layout.Entry>, Kernels.Setting, Program), ShaderError>)
    ensures r.Ok? ==> Layout.LayoutInBytes(r.value.0)
  {
    Layout.StateLayoutInBytes(config.state);
    match Layout.StateLayout(config.state)
    case Err(e) => Err(LayoutFailed(e))
    case Ok(layout) =>
      match Kernels.NeighbourSetting(config.kernels, CellScope(layout))
      case Err(e) => Err(SettingFailed(e))
      case Ok(setting) =>
        match Checker.CheckProgram(config.program, WithKernels(CellScope(layout), setting.elements))
        case Err(e) => Err(ProgramFailed(e))
        case Ok(program) => Ok((layout, setting, program))
  }

  function Prelude(): string {
    Lines(0, PreludeLines())
  }

  function PreludeLines(): seq<string> {
    [
      "#version 300 es",
      "precision mediump float;",
      "uniform usampler2D board;",
      "uniform sampler2DArray neighbour_count_texture;",
      "in ivec2 coord;",
      "in ivec2 board_size;",
      "out vec4 output;"]
  }

  function CellAt(): string {
    Lines(0, CellAtLines())
  }

  function CellAtLines(): seq<string> {
    [
      "ivec4 get_cell_at(int x, int y) {",
      "    return texelFetch(board, ivec2(x, y), 0);",
      "}"]
  }

  /** A state variable's getter and setter. */
  function Accessor(e: Layout.Entry): string
    requires Layout.FieldInBytes(e.field)
  {
    match e.field
    case FlagAt(byte, bit) => GetterFlag(e.name, byte, bit) + SetterFlag(e.name, byte, bit)
    case NumberAt(spans) => GetterNumber(e.name, spans) + SetterNumber(e.name, spans)
  }

  function Accessors(layout: seq<Layout.Entry>): string
    requires Layout.LayoutInBytes(layout)
  {
    if layout == [] then ""
    else Accessors(layout[..|layout| - 1]) + Accessor(layout[|layout| - 1])
  }

  /** The loop of generateShader over the state variables that emits their accessors. */
  method GenerateAccessors(layout: seq<Layout.Entry>) returns (code: string)
    requires Layout.LayoutInBytes(layout)
    ensures code == Accessors(layout)
  {
    code := "";
    var i := 0;
    while i < |layout|
      invariant 0 <= i <= |layout|
      invariant code == Accessors(layout[..i])
    {
      assert layout[..i + 1][..i] == layout[..i];
      var e := layout[i];
      match e.field {
        case FlagAt(byte, bit) =>
          code := code + (GetterFlag(e.name, byte, bit) + SetterFlag(e.name, byte, bit));
        case NumberAt(spans) =>
          var getter := GenerateStateGetterNumber(e.name, spans);
          var setter := GenerateStateSetterNumber(e.name, spans);
          code := code + (getter + setter);
      }
      i := i + 1;
    }
    assert layout[..i] == layout;
  }

  function NeighbourDecl(el: Kernels.Element): string {
    Lines(1, [el.kernelType + " neighbour_count_" + el.name + " = count_neighbours_" + el.name + "();"])
  }

  /** The main function's declaration of each count, in element order. */
  function NeighbourDecls(elements: seq<Kernels.Element>): string {
    if elements == [] then ""
    else NeighbourDecls(elements[..|elements| - 1]) + NeighbourDecl(elements[|elements| - 1])
  }

  method GenerateNeighbourDecls(elements: seq<Kernels.Element>) returns (code: string)
    ensures code == NeighbourDecls(elements)
  {
    code := "";
    var i := 0;
    while i < |elements|
      invariant 0 <= i <= |elements|
      invariant code == NeighbourDecls(elements[..i])
    {
      assert elements[..i + 1][..i] == elements[..i];
      code := code + NeighbourDecl(elements[i]);
      i := i + 1;
    }
    assert elements[..i] == elements;
  }

  /** A state variable read into a local of the main function: `bool` for a flag, `int` otherwise. */
  function StateLoad(e: Layout.Entry): string {
    Lines(1, [(if e.field.FlagAt? then "bool" else "int") + " cell_state_" + e.name + " = get_cell_state_" + e.name + "(cell);"])
  }

  function StateLoads(layout: seq<Layout.Entry>): string {
    if layout == [] then ""
    else StateLoads(layout[..|layout| - 1]) + StateLoad(layout[|layout| - 1])
  }

  method GenerateStateLoads(layout: seq<Layout.Entry>) returns (code: string)
    ensures code == StateLoads(layout)
  {
    code := "";
    var i := 0;
    while i < |layout|
      invariant 0 <= i <= |layout|
      invariant code == StateLoads(layout[..i])
    {
      assert layout[..i + 1][..i] == layout[..i];
      code := code + StateLoad(layout[i]);
      i := i + 1;
    }
    assert layout[..i] == layout;
  }

  /** A state variable's local written back into the cell. */
  function StateStore(e: Layout.Entry): string {
    Lines(1, ["set_cell_state_" + e.name + "(cell, cell_state_" + e.name + ");"])
  }

  function StateStores(layout: seq<Layout.Entry>): string {
    if layout == [] then ""
    else StateStores(layout[..|layout| - 1]) + StateStore(layout[|layout| - 1])
  }

  method GenerateStateStores(layout: seq<Layout.Entry>) returns (code: string)
    ensures code == StateStores(layout)
  {
    code := "";
    var i := 0;
    while i < |layout|
      invariant 0 <= i <= |layout|
      invariant code == StateStores(layout[..i])
    {
      assert layout[..i + 1][..i] == layout[..i];
      code := code + StateStore(layout[i]);
      i := i + 1;
    }
    assert layout[..i] == layout;
  }

  function MainOpen(): string {
    Lines(0, MainOpenLines())
  }

  function MainOpenLines(): seq<string> {
    ["void main() {"]
  }

  function LoadCell(): string {
    Lines(1, LoadCellLines())
  }

  function LoadCellLines(): seq<string> {
    ["ivec4 cell = get_cell_at(coord.x, coord.y);"]
  }

  /** The fragment's output: the cell's four bytes scaled to 0..1. */
  function Output(): string {
    Lines(1, OutputLines())
  }

  function OutputLines(): seq<string> {
    ["output = vec4(float(cell[0]) / 255.0, float(cell[1]) / 255.0, float(cell[2]) / 255.0, float(cell[3]) / 255.0);"]
  }

  /**
   * The fixed lines of generateShader's template, between which the
   * generated parts go. The generation stages take them as a value, so that
   * what is proved about the stages holds whatever these lines say.
   */
  datatype Template = Template(prelude: string, cellAt: string, mainOpen: string, loadCell: string, output: string)

  /** The template's lines as generateShader writes them. */
  function ShaderTemplate(): Template {
    Template(Prelude(), CellAt(), MainOpen(), LoadCell(), Output())
  }

  /** The shader's text once the counting functions and the program's code are generated. */
  function ShaderCode(t: Template, layout: seq<Layout.Entry>, elements: seq<Kernels.Element>, counts: string, body: string): string
    requires Layout.LayoutInBytes(layout)
  {
    t.prelude + t.cellAt + Accessors(layout) + counts + t.mainOpen + NeighbourDecls(elements) + t.loadCell
      + StateLoads(layout) + body + StateStores(layout) + t.output + "}"
  }

  /** The generation stages of generateShader: the counting functions (the first failure is the error), then the program's code. */
  function Render(t: Template, layout: seq<Layout.Entry>, elements: seq<Kernels.Element>, program: Program): Result<string, GenError>
    requires Layout.LayoutInBytes(layout)
  {
    var counts :- CountFuncs(elements);
    var body :- BodyCode(program.stmts, 1);
    Ok(ShaderCode(t, layout, elements, counts, body))
  }

  /** The analysis stages in order, then the generation stages around the lines of `t`. */
  function ShaderText(t: Template, config: ShaderConfig): Result<string, ShaderError> {
    match Analyze(config)
    case Err(e) => Err(e)
    case Ok((layout, setting, program)) =>
      match Render(t, layout, setting.elements, program)
      case Err(e) => Err(GenerationFailed(e))
      case Ok(text) => Ok(text)
  }

  /** generateShader: the stages around the template's own lines. */
  method GenerateShader(config: ShaderConfig) returns (r: Result<string, ShaderError>)
    ensures r == ShaderText(ShaderTemplate(), config)
  {
    r := GenerateShaderWith(ShaderTemplate(), config);
  }

  /** generateShader around the lines of `t`: the analysis stages, then the text. */
  method GenerateShaderWith(t: Template, config: ShaderConfig) returns (r: Result<string, ShaderError>)
    ensures r == ShaderText(t, config)
  {
    var analysed := AnalyzeShader(config);
    if analysed.Err? {
      return Err(analysed.error);
    }
    var (layout, setting, program) := analysed.value;
    var text := RenderShader(t, layout, setting.elements, program);
    if text.Err? {
      return Err(GenerationFailed(text.error));
    }
    return Ok(text.value);
  }

  /** The second half of generateShader: the counting functions, the program's code, the text. */
  method RenderShader(t: Template, layout: seq<Layout.Entry>, elements: seq<Kernels.Element>, program: Program) returns (r: Result<string, GenError>)
    requires Layout.LayoutInBytes(layout)
    ensures r == Render(t, layout, elements, program)
  {
    var counts := GenerateCountFuncs(elements);
    if counts.Err? {
      return Err(counts.error);
    }
    var body := GenerateProgram(program, 1);
    if body.Err? {
      return Err(body.error);
    }
    var text := AssembleShader(t, layout, elements, counts.value, body.value);
    return Ok(text);
  }

  /** The first half of generateShader: the layout, the neighbour setting, the scope, the checked program. */
  method AnalyzeShader(config: ShaderConfig) returns (r: Result<(seq<Layout.Entry>, Kernels.Setting, Program), ShaderError>)
    ensures r == Analyze(config)
  {
    var layoutResult := Layout.MakeStateLayout(config.state);
    if layoutResult.Err? {
      return Err(LayoutFailed(layoutResult.error));
    }
    var layout := layoutResult.value;
    var scope := CellScope(layout);
    var settingResult := Kernels.MakeNeighbourSetting(config.kernels, scope);
    if settingResult.Err? {
      return Err(SettingFailed(settingResult.error));
    }
    scope := AddKernelNames(scope, settingResult.value.elements);
    var checked := Checker.Typecheck(ProgramRoot(config.program), scope);
    if checked.Err? {
      return Err(ProgramFailed(checked.error));
    }
    return Ok((layout, settingResult.value, checked.value.program));
  }

  /**
   * The text of generateShader around the counting functions and the
   * program's code: the prelude, the accessors, and the main function that
   * loads the state, runs the program and stores the state back.
   */
  method AssembleShader(t: Template, layout: seq<Layout.Entry>, elements: seq<Kernels.Element>, counts: string, body: string) returns (code: string)
    requires Layout.LayoutInBytes(layout)
    ensures code == ShaderCode(t, layout, elements, counts, body)
  {
    code := t.prelude + t.cellAt;
    var accessors := GenerateAccessors(layout);
    code := code + accessors + counts + t.mainOpen;
    var decls := GenerateNeighbourDecls(elements);
    code := code + decls + t.loadCell;
    var loads := GenerateStateLoads(layout);
    code := code + loads + body;
    var stores := GenerateStateStores(layout);
    code := code + stores + t.output + "}";
  }

  // ---------------------------------------------------------------------------
  // From the analysis to the text
  // ---------------------------------------------------------------------------

  /** Every kernel's value expression, as the setting holds it, is parsed and correctly checked in the cell-only scope. */
  lemma KernelsChecked(config: seq<Kernels.KernelDecl>, layout: seq<Layout.Entry>)
    requires forall k :: 0 <= k < |config| ==> ExprParsed(config[k].valuefn)
    requires Kernels.NeighbourSetting(config, CellScope(layout)).Ok?
    ensures var es := Kernels.NeighbourSetting(config, CellScope(layout)).value.elements;
      forall k :: 0 <= k < |es| ==> ExprParsed(es[k].valuefn) && Checker.WellTyped(CellScope(layout), es[k].valuefn)
  {
    var scope := CellScope(layout);
    var check := Kernels.TypecheckIn(scope);
    if config != [] {
      Kernels.ElementsInOrder(config, check, |config|);
      var es := Kernels.NeighbourSetting(config, scope).value.elements;
      assert es == Kernels.Elements(config, check, |config|).value;
      forall k | 0 <= k < |es|
        ensures ExprParsed(es[k].valuefn) && Checker.WellTyped(scope, es[k].valuefn)
      {
        assert Checker.AnalyzeExpr(config[k].valuefn, scope) == Ok(es[k].valuefn);
        Checker.AnalyzeExprSound(config[k].valuefn, scope);
        StripExprParsed(es[k].valuefn);
        StripExprParsed(config[k].valuefn);
      }
    }
  }

  /** Counting functions of parsed, correctly checked value expressions always render. */
  lemma CountsGenerate(layout: seq<Layout.Entry>, elements: seq<Kernels.Element>)
    requires forall k :: 0 <= k < |elements| ==>
      ExprParsed(elements[k].valuefn) && Checker.WellTyped(CellScope(layout), elements[k].valuefn)
    ensures CountFuncs(elements).Ok?
  {
    KernelScopeShape(layout, elements);
    forall k | 0 <= k < |elements|
      ensures CountFunc(elements[k]).Ok?
    {
      CheckedExprGenerates(CellScope(layout), elements[k].valuefn);
    }
    JoinedOk(elements, CountFunc);
  }

  /** A parsed program the checker accepts comes back parsed and correctly annotated. */
  lemma ProgramChecked(program: Program, root: Scope)
    requires forall i :: 0 <= i < |program.stmts| ==> StmtParsed(program.stmts[i])
    requires Checker.CheckProgram(program, root).Ok?
    ensures var checked := Checker.CheckProgram(program, root).value;
      Checker.WellTypedBody(root, checked.stmts) &&
      forall i :: 0 <= i < |checked.stmts| ==> StmtParsed(checked.stmts[i])
  {
    var checked := Checker.CheckProgram(program, root).value;
    Checker.CheckProgramCorrect(program, root, checked);
    var body, body' := program.stmts, checked.stmts;
    assert Checker.StripBody(body') == Checker.StripBody(body);
    assert |body'| == |Checker.StripBody(body')| == |Checker.StripBody(body)| == |body|;
    forall i | 0 <= i < |body'|
      ensures StmtParsed(body'[i])
    {
      StripBodyAt(body, i);
      StripBodyAt(body', i);
      StripStmtParsed(body[i]);
      StripStmtParsed(body'[i]);
    }
  }

  /**
   * Once the kernels and the program are checked, rendering fails only on an
   * assignment the program's code generator refuses.
   */
  lemma RenderGenerates(t: Template, layout: seq<Layout.Entry>, elements: seq<Kernels.Element>, program: Program)
    requires Layout.LayoutInBytes(layout)
    requires forall k :: 0 <= k < |elements| ==>
      ExprParsed(elements[k].valuefn) && Checker.WellTyped(CellScope(layout), elements[k].valuefn)
    requires Checker.WellTypedBody(WithKernels(CellScope(layout), elements), program.stmts)
    requires forall i :: 0 <= i < |program.stmts| ==> StmtParsed(program.stmts[i])
    ensures Render(t, layout, elements, program).Ok? <==> forall i :: 0 <= i < |program.stmts| ==> Writable(program.stmts[i])
  {
    CountsGenerate(layout, elements);
    KernelScopeShape(layout, elements);
    CheckedBodyGenerates(WithKernels(CellScope(layout), elements), program.stmts, 1);
  }

  /** The shader is produced exactly when the analysis succeeds and its result renders. */
  lemma ShaderTextOk(t: Template, config: ShaderConfig)
    ensures ShaderText(t, config).Ok? <==>
      Analyze(config).Ok? &&
      var (layout, setting, program) := Analyze(config).value;
      Render(t, layout, setting.elements, program).Ok?
  {
  }

  /** What the analysis of parsed kernels and a parsed program hands to the generation stages. */
  lemma AnalysisChecked(config: ShaderConfig)
    requires forall k :: 0 <= k < |config.kernels| ==> ExprParsed(config.kernels[k].valuefn)
    requires forall i :: 0 <= i < |config.program.stmts| ==> StmtParsed(config.program.stmts[i])
    requires Analyze(config).Ok?
    ensures var (layout, setting, program) := Analyze(config).value;
      && (forall k :: 0 <= k < |setting.elements| ==>
        ExprParsed(setting.elements[k].valuefn) && Checker.WellTyped(CellScope(layout), setting.elements[k].valuefn))
      && Checker.WellTypedBody(WithKernels(CellScope(layout), setting.elements), program.stmts)
      && (forall i :: 0 <= i < |program.stmts| ==> StmtParsed(program.stmts[i]))
  {
    var layout := Layout.StateLayout(config.state).value;
    var setting := Kernels.NeighbourSetting(config.kernels, CellScope(layout)).value;
    var program := Checker.CheckProgram(config.program, WithKernels(CellScope(layout), setting.elements)).value;
    assert Analyze(config).value == (layout, setting, program);
    StagesChecked(config, layout, setting);
  }

  /** The checked kernels and program of the stages, given the layout and the setting they produce. */
  lemma StagesChecked(config: ShaderConfig, layout: seq<Layout.Entry>, setting: Kernels.Setting)
    requires forall k :: 0 <= k < |config.kernels| ==> ExprParsed(config.kernels[k].valuefn)
    requires forall i :: 0 <= i < |config.program.stmts| ==> StmtParsed(config.program.stmts[i])
    requires Kernels.NeighbourSetting(config.kernels, CellScope(layout)) == Ok(setting)
    requires Checker.CheckProgram(config.program, WithKernels(CellScope(layout), setting.elements)).Ok?
    ensures var program := Checker.CheckProgram(config.program, WithKernels(CellScope(layout), setting.elements)).value;
      && (forall k :: 0 <= k < |setting.elements| ==>
        ExprParsed(setting.elements[k].valuefn) && Checker.WellTyped(CellScope(layout), setting.elements[k].valuefn))
      && Checker.WellTypedBody(WithKernels(CellScope(layout), setting.elements), program.stmts)
      && (forall i :: 0 <= i < |program.stmts| ==> StmtParsed(program.stmts[i]))
  {
    KernelsChecked(config.kernels, layout);
    ProgramChecked(config.program, WithKernels(CellScope(layout), setting.elements));
  }

  /**
   * For parsed kernels and a parsed program, generation never fails after the
   * analysis succeeds except on an assignment to a name that is not declared
   * in the program: the shader is produced exactly when the analysis
   * succeeds and every statement of the checked program is writable.
   */
  lemma ShaderGenerates(t: Template, config: ShaderConfig)
    requires forall k :: 0 <= k < |config.kernels| ==> ExprParsed(config.kernels[k].valuefn)
    requires forall i :: 0 <= i < |config.program.stmts| ==> StmtParsed(config.program.stmts[i])
    ensures ShaderText(t, config).Ok? <==>
      Analyze(config).Ok? &&
      var stmts := Analyze(config).value.2.stmts;
      forall i :: 0 <= i < |stmts| ==> Writable(stmts[i])
  {
    ShaderTextOk(t, config);
    if Analyze(config).Ok? {
      var (layout, setting, program) := Analyze(config).value;
      AnalysisChecked(config);
      RenderGenerates(t, layout, setting.elements, program);
    }
  }
}

/**
 * The GLSL text of the rule language (complex-shader.js: generateExpression,
 * generateStatement, generateProgram).
 *
 * Expressions are rendered fully parenthesised; an identifier is mangled by
 * the scope entry the checker recorded for it: a read-only (built-in) name is
 * a neighbour count, a declared one a user variable, and `cell.f` goes
 * through the state accessors. The statement generator is paired with the
 * checker: on a checked program it fails exactly when the program assigns to
 * a read-only name.
 */
module Codegen {
  import opened Wrappers
  import opened Strings
  import opened Ast
  import Checker

  /** What the generators throw. */
  datatype GenError =
      /** `new Error('not implemented')`: an access path of an unsupported shape. */
    | NotImplemented
      /** `new Error(`${name} is read-only`)`: an assignment to a built-in name. */
    | ReadOnly(name: string)
      /** The TypeError of reading `declaration` from an entry that is not there. */
    | UndefinedRead

  // ---------------------------------------------------------------------------
  // Expressions
  // ---------------------------------------------------------------------------

  /** The operator text the parser stores in a Binary node's `op`. */
  function BinaryOpText(op: BinaryOp): string {
    match op
    case Or => "||"
    case And => "&&"
    case Eq => "=="
    case Ne => "!="
    case Le => "<="
    case Lt => "<"
    case Ge => ">="
    case Gt => ">"
    case Add => "+"
    case Sub => "-"
    case Mul => "*"
    case Div => "/"
    case Mod => "%"
  }

  function UnaryOpText(op: UnaryOp): string {
    match op
    case Not => "!"
    case Neg => "-"
  }

  /** A cast is written as a constructor call of its target type. */
  function CastOpText(op: CastOp): string {
    match op
    case ToInt => "int"
    case ToFloat => "float"
    case ToBool => "bool"
  }

  /** A float literal gets a trailing `.` when its text has none, so GLSL reads it as a float. */
  function FloatText(text: string): string {
    if '.' in text then text else text + "."
  }

  /**
   * An access: a one-segment path is looked up in the scope recorded on the
   * node, `cell.f` reads the state through its getter, and any other shape
   * is not implemented.
   */
  function AccessText(path: seq<string>, note: Note): Result<string, GenError> {
    if |path| == 1 then
      if !note.Checked? || path[0] !in note.scope then Err(UndefinedRead)
      else if note.scope[path[0]].declaration.BuiltIn? then Ok("neighbour_count_" + path[0])
      else Ok("user_var_" + path[0])
    else if |path| == 0 || path[0] != "cell" || |path| > 2 then Err(NotImplemented)
    else Ok(Call("get_cell_state_" + path[1], "cell"))
  }

  /** `(x)`. */
  function Paren(x: string): string {
    "(" + x + ")"
  }

  /** `f(x)`: a call, a cast or a prefix operator applied to a parenthesised operand. */
  function Call(f: string, x: string): string {
    f + Paren(x)
  }

  /** generateExpression. */
  function GenerateExpression(e: Expr): Result<string, GenError> {
    match e
    case Ternary(test, c, a, _) =>
      var test' :- GenerateExpression(test);
      var c' :- GenerateExpression(c);
      var a' :- GenerateExpression(a);
      Ok(Paren(test') + " ? " + Paren(c') + " : " + Paren(a'))
    case Binary(op, l, r, _) =>
      var l' :- GenerateExpression(l);
      var r' :- GenerateExpression(r);
      Ok(Paren(l') + " " + BinaryOpText(op) + " " + Paren(r'))
    case Unary(op, x, _) =>
      var x' :- GenerateExpression(x);
      Ok(Call(UnaryOpText(op), x'))
    case Cast(op, x, _) =>
      var x' :- GenerateExpression(x);
      Ok(Call(CastOpText(op), x'))
    case IntLiteral(v, _) => Ok(IntToString(v))
    case FloatLiteral(text, _) => Ok(FloatText(text))
    case BooleanLiteral(b, _) => Ok(if b then "true" else "false")
    case Access(path, note) => AccessText(path, note)
  }

  // ---------------------------------------------------------------------------
  // Statements
  // ---------------------------------------------------------------------------

  /** generateStatement's result at indentation `level`. */
  function StmtCode(s: Stmt, level: nat): Result<string, GenError>
    decreases s, 1
  {
    var indent := Indent(level);
    match s
    case Block(body, _) =>
      var inner :- BodyCode(body, level + 1);
      Ok(indent + "{\n" + inner + indent + "}")
    case Declaration(name, init, typename, _, _) =>
      if init.None? then Ok(indent + typename + " user_var_" + name + ";")
      else
        var e :- GenerateExpression(init.value);
        Ok(indent + typename + " user_var_" + name + "= " + e + ";")
    case Assignment(path, note, _, value, _) =>
      var e :- GenerateExpression(value);
      if |path| == 1 then
        if !note.Checked? || path[0] !in note.scope then Err(UndefinedRead)
        else if note.scope[path[0]].declaration.BuiltIn? then Err(ReadOnly(path[0]))
        else Ok(indent + "user_var_" + path[0] + " = " + e + ";")
      else if |path| == 2 then
        if path[0] != "cell" then Err(NotImplemented)
        else Ok(indent + "set_cell_state_" + path[1] + "(cell, " + e + ");")
      else Err(NotImplemented)
    case Conditional(test, th, el, _) =>
      var t :- GenerateExpression(test);
      var c :- StmtCode(th, BranchLevel(th, level));
      var code := indent + "if (" + t + ")\n" + c + "\n";
      if el.None? then Ok(code)
      else
        var a :- StmtCode(el.value, BranchLevel(el.value, level));
        Ok(code + indent + "else\n" + a + "\n")
  }

  /** A branch that is a block keeps the `if`'s indentation; any other is indented one step more. */
  function BranchLevel(s: Stmt, level: nat): nat {
    if s.Block? then level else level + 1
  }

  /** The statements of a block or program, each rendered and followed by a newline. */
  function BodyCode(body: seq<Stmt>, level: nat): Result<string, GenError>
    decreases body, 0
  {
    if body == [] then Ok("")
    else
      var first :- StmtCode(body[0], level);
      var rest :- BodyCode(body[1..], level);
      Ok(first + "\n" + rest)
  }

  /** The text rendered so far in front of the rest's result. */
  function Glue(done: string, r: Result<string, GenError>): Result<string, GenError> {
    match r
    case Ok(t) => Ok(done + t)
    case Err(e) => Err(e)
  }

  /** One step of the loop over a body: render statement `i` and move on. */
  lemma BodyStep(body: seq<Stmt>, i: nat, level: nat, done: string)
    requires i < |body|
    ensures var step := StmtCode(body[i], level);
      Glue(done, BodyCode(body[i..], level)) ==
        if step.Err? then Err(step.error) else Glue(done + step.value + "\n", BodyCode(body[i + 1..], level))
  {
    assert body[i..][1..] == body[i + 1..];
    var step := StmtCode(body[i], level);
    if step.Ok? {
      var rest := BodyCode(body[i + 1..], level);
      if rest.Ok? {
        assert done + (step.value + "\n" + rest.value) == done + step.value + "\n" + rest.value;
      }
    }
  }

  /** The loop over a body renders what `BodyCode` describes. */
  method GenerateBody(body: seq<Stmt>, level: nat) returns (r: Result<string, GenError>)
    ensures r == BodyCode(body, level)
    decreases body, 0
  {
    var done := "";
    var i := 0;
    assert body[0..] == body;
    var whole := BodyCode(body, level);
    if whole.Ok? {
      assert "" + whole.value == whole.value;
    }
    while i < |body|
      invariant 0 <= i <= |body|
      invariant BodyCode(body, level) == Glue(done, BodyCode(body[i..], level))
    {
      BodyStep(body, i, level, done);
      var step := GenerateStatement(body[i], level);
      if step.Err? {
        return Err(step.error);
      }
      done := done + step.value + "\n";
      i := i + 1;
    }
    assert body[i..] == [];
    assert done + "" == done;
    r := Ok(done);
  }

  /** generateStatement; a block's statements are rendered by the loop of `GenerateBody`. */
  method GenerateStatement(s: Stmt, level: nat) returns (r: Result<string, GenError>)
    ensures r == StmtCode(s, level)
    decreases s, 1
  {
    var indent := Indent(level);
    match s {
      case Block(body, _) =>
        var inner := GenerateBody(body, level + 1);
        if inner.Err? {
          return Err(inner.error);
        }
        r := Ok(indent + "{\n" + inner.value + indent + "}");
      case Conditional(test, th, el, _) =>
        var t := GenerateExpression(test);
        if t.Err? {
          return Err(t.error);
        }
        var c := GenerateStatement(th, BranchLevel(th, level));
        if c.Err? {
          return Err(c.error);
        }
        var code := indent + "if (" + t.value + ")\n" + c.value + "\n";
        if el.Some? {
          var a := GenerateStatement(el.value, BranchLevel(el.value, level));
          if a.Err? {
            return Err(a.error);
          }
          code := code + indent + "else\n" + a.value + "\n";
        }
        r := Ok(code);
      case Declaration(_, _, _, _, _) =>
        r := StmtCode(s, level);
      case Assignment(_, _, _, _, _) =>
        r := StmtCode(s, level);
    }
  }

  /** generateProgram: every statement of the program at `level`, each followed by a newline. */
  method GenerateProgram(p: Program, level: nat) returns (r: Result<string, GenError>)
    ensures r == BodyCode(p.stmts, level)
  {
    r := GenerateBody(p.stmts, level);
  }

  // ---------------------------------------------------------------------------
  // Generation of checked trees
  // ---------------------------------------------------------------------------

  /**
   * A scope of the shape the shader generator builds: the only struct that
   * can be named is `cell`, and its properties are scalars.
   */
  predicate ShaderScope(sc: Scope) {
    forall x :: x in sc && sc[x].ty.Struct? ==>
      x == "cell" && forall i :: 0 <= i < |sc[x].ty.properties| ==> !sc[x].ty.properties[i].ty.Struct?
  }

  /** What the grammar produces: every access path has at least one segment. */
  predicate ExprParsed(e: Expr) {
    match e
    case Ternary(t, c, a, _) => ExprParsed(t) && ExprParsed(c) && ExprParsed(a)
    case Binary(_, l, r, _) => ExprParsed(l) && ExprParsed(r)
    case Unary(_, x, _) => ExprParsed(x)
    case Cast(_, x, _) => ExprParsed(x)
    case Access(path, _) => |path| >= 1
    case _ => true
  }

  predicate StmtParsed(s: Stmt) {
    match s
    case Block(body, _) => forall i :: 0 <= i < |body| ==> StmtParsed(body[i])
    case Declaration(_, init, _, _, _) => init.Some? ==> ExprParsed(init.value)
    case Assignment(path, _, _, value, _) => |path| >= 1 && ExprParsed(value)
    case Conditional(test, th, el, _) =>
      ExprParsed(test) && StmtParsed(th) && (el.Some? ==> StmtParsed(el.value))
  }

  /** Annotations do not change what the parser produced. */
  lemma {:induction false} StripExprParsed(e: Expr)
    ensures ExprParsed(Checker.Strip(e)) <==> ExprParsed(e)
  {
    match e
    case Ternary(t, c, a, _) =>
      StripExprParsed(t);
      StripExprParsed(c);
      StripExprParsed(a);
    case Binary(_, l, r, _) =>
      StripExprParsed(l);
      StripExprParsed(r);
    case Unary(_, x, _) =>
      StripExprParsed(x);
    case Cast(_, x, _) =>
      StripExprParsed(x);
    case _ =>
  }

  lemma {:induction false} StripStmtParsed(s: Stmt)
    ensures StmtParsed(Checker.StripStmt(s)) <==> StmtParsed(s)
    decreases s, 1
  {
    match s
    case Block(body, _) =>
      StripBodyParsed(body);
    case Declaration(_, init, _, _, _) =>
      if init.Some? {
        StripExprParsed(init.value);
      }
    case Assignment(_, _, _, value, _) =>
      StripExprParsed(value);
    case Conditional(test, th, el, _) =>
      StripExprParsed(test);
      StripStmtParsed(th);
      if el.Some? {
        StripStmtParsed(el.value);
      }
  }

  lemma StripBodyParsed(body: seq<Stmt>)
    ensures (forall i :: 0 <= i < |body| ==> StmtParsed(Checker.StripBody(body)[i]))
        <==> (forall i :: 0 <= i < |body| ==> StmtParsed(body[i]))
    decreases body, 0
  {
    forall i | 0 <= i < |body|
      ensures StmtParsed(Checker.StripBody(body)[i]) <==> StmtParsed(body[i])
    {
      StripBodyAt(body, i);
      StripStmtParsed(body[i]);
    }
  }

  /** Erasing a body's annotations erases each statement's. */
  lemma {:induction false} StripBodyAt(body: seq<Stmt>, i: nat)
    requires i < |body|
    ensures Checker.StripBody(body)[i] == Checker.StripStmt(body[i])
  {
    if i > 0 {
      StripBodyAt(body[1..], i - 1);
    }
  }

  /**
   * What a checked access in a shader scope renders as: a one-segment name
   * is a neighbour count when its entry is built in and a user variable
   * otherwise; any longer path is `cell.f`, read through the getter of `f`.
   */
  lemma CheckedAccess(sc: Scope, path: seq<string>, note: Note)
    requires ShaderScope(sc) && |path| >= 1
    requires Checker.WellTyped(sc, Access(path, note))
    ensures |path| == 1 ==> path[0] in sc
    ensures |path| == 1 && sc[path[0]].declaration.BuiltIn? ==>
      GenerateExpression(Access(path, note)) == Ok("neighbour_count_" + path[0])
    ensures |path| == 1 && sc[path[0]].declaration.Declared? ==>
      GenerateExpression(Access(path, note)) == Ok("user_var_" + path[0])
    ensures |path| != 1 ==>
      && |path| == 2 && path[0] == "cell"
      && GenerateExpression(Access(path, note)) == Ok(Call("get_cell_state_" + path[1], "cell"))
  {
    var head := path[0];
    assert head in sc;
    if |path| > 1 {
      var t := sc[head].ty;
      var rest := path[1..];
      assert Checker.Walk(t, Tag(t), head, rest, path[1]).Ok?;
      assert t.Struct? && head == "cell";
      var k := Find(t.properties, rest[0]);
      assert k < |t.properties| && !t.properties[k].ty.Struct?;
      assert Checker.Walk(t.properties[k].ty, Tag(t), head + "." + rest[0], rest[1..], path[1]).Ok?;
      assert rest[1..] == [];
    }
  }

  /** The expression generator never throws on a checked expression in a shader scope. */
  lemma {:induction false} CheckedExprGenerates(sc: Scope, e: Expr)
    requires ShaderScope(sc) && ExprParsed(e) && Checker.WellTyped(sc, e)
    ensures GenerateExpression(e).Ok?
  {
    match e
    case Ternary(t, c, a, _) =>
      CheckedExprGenerates(sc, t);
      CheckedExprGenerates(sc, c);
      CheckedExprGenerates(sc, a);
    case Binary(_, l, r, _) =>
      CheckedExprGenerates(sc, l);
      CheckedExprGenerates(sc, r);
    case Unary(_, x, _) =>
      CheckedExprGenerates(sc, x);
    case Cast(_, x, _) =>
      CheckedExprGenerates(sc, x);
    case Access(path, note) =>
      CheckedAccess(sc, path, note);
    case _ =>
  }

  /** Every one-segment assignment target is a declared (writable) variable of the target's scope. */
  predicate Writable(s: Stmt) {
    match s
    case Block(body, _) => forall i :: 0 <= i < |body| ==> Writable(body[i])
    case Declaration(_, _, _, _, _) => true
    case Assignment(path, note, _, _, _) =>
      |path| == 1 ==> note.Checked? && path[0] in note.scope && note.scope[path[0]].declaration.Declared?
    case Conditional(_, th, el, _) => Writable(th) && (el.Some? ==> Writable(el.value))
  }

  /** A declaration adds a scalar, so the shape of a shader scope survives every statement. */
  lemma ShaderScopeAfter(sc: Scope, s: Stmt)
    requires ShaderScope(sc)
    ensures ShaderScope(Checker.After(sc, s))
  {
  }

  /**
   * On a checked statement in a shader scope, the statement generator fails
   * exactly when some assignment writes a read-only name (the checker lets
   * those through).
   */
  lemma {:induction false} CheckedStmtGenerates(sc: Scope, s: Stmt, level: nat)
    requires ShaderScope(sc) && StmtParsed(s) && Checker.WellTypedStmt(sc, s)
    ensures StmtCode(s, level).Ok? <==> Writable(s)
    decreases s, 1
  {
    match s
    case Block(body, _) =>
      CheckedBodyGenerates(sc, body, level + 1);
    case Declaration(_, init, _, _, _) =>
      if init.Some? {
        CheckedExprGenerates(sc, init.value);
      }
    case Assignment(path, note, _, value, _) =>
      CheckedExprGenerates(sc, value);
      CheckedAccess(sc, path, note);
    case Conditional(test, th, el, _) =>
      CheckedExprGenerates(sc, test);
      CheckedStmtGenerates(sc, th, BranchLevel(th, level));
      if el.Some? {
        CheckedStmtGenerates(sc, el.value, BranchLevel(el.value, level));
      }
  }

  lemma {:induction false} CheckedBodyGenerates(sc: Scope, body: seq<Stmt>, level: nat)
    requires ShaderScope(sc) && (forall i :: 0 <= i < |body| ==> StmtParsed(body[i]))
    requires Checker.WellTypedBody(sc, body)
    ensures BodyCode(body, level).Ok? <==> forall i :: 0 <= i < |body| ==> Writable(body[i])
    decreases body, 0
  {
    if body != [] {
      CheckedStmtGenerates(sc, body[0], level);
      ShaderScopeAfter(sc, body[0]);
      CheckedBodyGenerates(Checker.After(sc, body[0]), body[1..], level);
      assert forall i :: 1 <= i < |body| ==> body[i] == body[1..][i - 1];
    }
  }

  /** The operator of an assignment (`=`, `+=`, ...) does not reach the generated text. */
  lemma AssignOpIgnored(path: seq<string>, note: Note, op1: string, op2: string, value: Expr, sc: Option<Scope>, level: nat)
    ensures StmtCode(Assignment(path, note, op1, value, sc), level) == StmtCode(Assignment(path, note, op2, value, sc), level)
  {
  }

  // ---------------------------------------------------------------------------
  // Parentheses
  // ---------------------------------------------------------------------------

  /** The characters that open and close a group are equally many. */
  predicate Balanced(s: string) {
    Count('(', s) == Count(')', s)
  }

  /** The number of occurrences of `c` in `s`. */
  function Count(c: char, s: string): nat {
    if s == [] then 0 else (if s[0] == c then 1 else 0) + Count(c, s[1..])
  }

  lemma {:induction false} CountConcat(c: char, a: string, b: string)
    ensures Count(c, a + b) == Count(c, a) + Count(c, b)
  {
    if a == [] {
      assert a + b == b;
    } else {
      assert (a + b)[1..] == a[1..] + b;
      CountConcat(c, a[1..], b);
    }
  }

  predicate NoParens(s: string) {
    '(' !in s && ')' !in s
  }

  /** Every name and float text an expression carries is free of parentheses. */
  predicate PlainLeaves(e: Expr) {
    match e
    case Ternary(t, c, a, _) => PlainLeaves(t) && PlainLeaves(c) && PlainLeaves(a)
    case Binary(_, l, r, _) => PlainLeaves(l) && PlainLeaves(r)
    case Unary(_, x, _) => PlainLeaves(x)
    case Cast(_, x, _) => PlainLeaves(x)
    case FloatLiteral(text, _) => NoParens(text)
    case Access(path, _) => forall i :: 0 <= i < |path| ==> NoParens(path[i])
    case _ => true
  }

  lemma {:induction false} NoParensCount(s: string)
    requires NoParens(s)
    ensures Count('(', s) == 0 && Count(')', s) == 0
  {
    if s != [] {
      assert s[0] in s;
      assert forall x :: x in s[1..] ==> x in s;
      NoParensCount(s[1..]);
    }
  }

  lemma CountSingle(c: char, d: char)
    ensures Count(c, [d]) == if c == d then 1 else 0
  {
    assert [d][1..] == [];
  }

  lemma BalancedConcat(a: string, b: string)
    requires Balanced(a) && Balanced(b)
    ensures Balanced(a + b)
  {
    CountConcat('(', a, b);
    CountConcat(')', a, b);
  }

  lemma NoParensBalanced(s: string)
    requires NoParens(s)
    ensures Balanced(s)
  {
    NoParensCount(s);
  }

  lemma ParenBalanced(x: string)
    requires Balanced(x)
    ensures Balanced(Paren(x))
  {
    CountSingle('(', '(');
    CountSingle(')', '(');
    CountSingle('(', ')');
    CountSingle(')', ')');
    CountConcat('(', "(", x);
    CountConcat(')', "(", x);
    CountConcat('(', "(" + x, ")");
    CountConcat(')', "(" + x, ")");
  }

  lemma CallBalanced(f: string, x: string)
    requires NoParens(f) && Balanced(x)
    ensures Balanced(Call(f, x))
  {
    NoParensBalanced(f);
    ParenBalanced(x);
    BalancedConcat(f, Paren(x));
  }

  lemma TernaryBalanced(t: string, c: string, a: string)
    requires Balanced(t) && Balanced(c) && Balanced(a)
    ensures Balanced(Paren(t) + " ? " + Paren(c) + " : " + Paren(a))
  {
    ParenBalanced(t);
    ParenBalanced(c);
    ParenBalanced(a);
    NoParensBalanced(" ? ");
    NoParensBalanced(" : ");
    BalancedConcat(Paren(t), " ? ");
    BalancedConcat(Paren(t) + " ? ", Paren(c));
    BalancedConcat(Paren(t) + " ? " + Paren(c), " : ");
    BalancedConcat(Paren(t) + " ? " + Paren(c) + " : ", Paren(a));
  }

  lemma BinaryBalanced(l: string, op: BinaryOp, r: string)
    requires Balanced(l) && Balanced(r)
    ensures Balanced(Paren(l) + " " + BinaryOpText(op) + " " + Paren(r))
  {
    ParenBalanced(l);
    ParenBalanced(r);
    NoParensBalanced(" ");
    NoParensBalanced(BinaryOpText(op));
    BalancedConcat(Paren(l), " ");
    BalancedConcat(Paren(l) + " ", BinaryOpText(op));
    BalancedConcat(Paren(l) + " " + BinaryOpText(op), " ");
    BalancedConcat(Paren(l) + " " + BinaryOpText(op) + " ", Paren(r));
  }

  lemma LeafBalanced(e: Expr)
    requires !e.Ternary? && !e.Binary? && !e.Unary? && !e.Cast?
    requires PlainLeaves(e) && GenerateExpression(e).Ok?
    ensures Balanced(GenerateExpression(e).value)
  {
    match e
    case IntLiteral(v, _) =>
      var s := IntToString(v);
      assert NoParens(s) by {
        forall k | 0 <= k < |s| ensures s[k] != '(' && s[k] != ')' {
          DigitNotParen(s[k]);
        }
      }
      NoParensBalanced(s);
    case FloatLiteral(text, _) =>
      if '.' !in text {
        NoParensConcat(text, ".");
      }
      NoParensBalanced(FloatText(text));
    case BooleanLiteral(b, _) =>
      MangledNoParens();
      NoParensBalanced(if b then "true" else "false");
    case Access(path, note) =>
      MangledNoParens();
      if |path| == 1 {
        NoParensConcat("neighbour_count_", path[0]);
        NoParensConcat("user_var_", path[0]);
        NoParensBalanced("neighbour_count_" + path[0]);
        NoParensBalanced("user_var_" + path[0]);
      } else {
        NoParensConcat("get_cell_state_", path[1]);
        NoParensBalanced("cell");
        CallBalanced("get_cell_state_" + path[1], "cell");
      }
  }

  lemma MangledNoParens()
    ensures NoParens("neighbour_count_") && NoParens("user_var_") && NoParens("get_cell_state_")
    ensures NoParens("true") && NoParens("false")
  {
  }

  lemma NoParensConcat(a: string, b: string)
    requires NoParens(a) && NoParens(b)
    ensures NoParens(a + b)
  {
  }

  /** The generated text of an expression opens as many parentheses as it closes. */
  lemma {:induction false} ExprBalanced(e: Expr)
    requires PlainLeaves(e) && GenerateExpression(e).Ok?
    ensures Balanced(GenerateExpression(e).value)
  {
    match e
    case Ternary(t, c, a, _) =>
      ExprBalanced(t);
      ExprBalanced(c);
      ExprBalanced(a);
      TernaryBalanced(GenerateExpression(t).value, GenerateExpression(c).value, GenerateExpression(a).value);
    case Binary(op, l, r, _) =>
      ExprBalanced(l);
      ExprBalanced(r);
      BinaryBalanced(GenerateExpression(l).value, op, GenerateExpression(r).value);
    case Unary(op, x, _) =>
      ExprBalanced(x);
      CallBalanced(UnaryOpText(op), GenerateExpression(x).value);
    case Cast(op, x, _) =>
      ExprBalanced(x);
      CallBalanced(CastOpText(op), GenerateExpression(x).value);
    case _ =>
      LeafBalanced(e);
  }

  lemma DigitNotParen(c: char)
    requires c == '-' || 0 <= DigitValue(c) < 10
    ensures c != '(' && c != ')'
  {
  }
}

/**
 * The rule language's type checker (parser.ts: analyzeExpression,
 * getAccessType, scopeWithVar, analyzeStatement, analyzeProgram, typecheck).
 *
 * The source annotates the tree in place; here every analysis returns the
 * annotated tree, or the error the source throws. The checking functions
 * are paired with a declarative description of a correctly annotated tree
 * (`WellTyped`, `WellTypedStmt`): the checker succeeds exactly when such an
 * annotation exists, and then returns it.
 */
module Checker {
  import opened Wrappers
  import opened Ast

  /** One constructor per `throw` of the checker, carrying what its message prints. */
  datatype TypeError =
    | TernaryCondition(found: string)
    | TernaryBranches(consequentTag: string, alternateTag: string)
    | BinaryOperands(op: BinaryOp, leftTag: string, rightTag: string)
    | NotOperand(found: string)
    | NegOperand(found: string)
    | CastOperand(found: string, castTo: CastOp)
    | NotDefined(name: string)
    | PropertyOnNonStruct(property: string, rootTag: string)
    | NoProperty(pathName: string, property: string)
    | UnknownTypename(typename: string)
    | InitMismatch(declaredTag: string, initTag: string)
    | AssignMismatch(valueTag: string)
    | ConditionNotBoolean(found: string)
    | InvalidRoot(rootTag: string)

  // ---------------------------------------------------------------------------
  // Scopes and paths
  // ---------------------------------------------------------------------------

  /** scopeWithVar: a new scope that binds `name`, shadowing any earlier binding. */
  function ScopeWithVar(sc: Scope, name: string, ty: Type, decl: Origin): (r: Scope)
    ensures name in r && r[name] == ScopeEntry(ty, decl)
    ensures r.Keys == sc.Keys + {name}
    ensures forall k :: k in sc && k != name ==> r[k] == sc[k]
  {
    sc[name := ScopeEntry(ty, decl)]
  }

  /** `access[0]`: JavaScript reads the key "undefined" from an empty path. */
  function Head(path: seq<string>): string {
    if path == [] then "undefined" else path[0]
  }

  /**
   * The struct walk of getAccessType: follow `rest` through `properties`,
   * `pathName` being the dotted path walked so far and `second` the path's
   * second segment, which the non-struct message prints whatever the depth.
   */
  function Walk(t: Type, rootTag: string, pathName: string, rest: seq<string>, second: string): Result<Type, TypeError>
    decreases |rest|
  {
    if rest == [] then Ok(t)
    else if !t.Struct? then Err(PropertyOnNonStruct(second, rootTag))
    else
      var k := Find(t.properties, rest[0]);
      if k == |t.properties| then Err(NoProperty(pathName, rest[0]))
      else Walk(t.properties[k].ty, rootTag, pathName + "." + rest[0], rest[1..], second)
  }

  /**
   * The type an access path denotes in a scope. Only a path of two or more
   * segments is walked; on a non-struct root that walk fails at once.
   */
  function AccessType(sc: Scope, path: seq<string>): Result<Type, TypeError> {
    var head := Head(path);
    if head !in sc then Err(NotDefined(head))
    else if |path| <= 1 then Ok(sc[head].ty)
    else Walk(sc[head].ty, Tag(sc[head].ty), head, path[1..], path[1])
  }

  /** getAccessType, with the source's loop over the path. */
  method GetAccessType(sc: Scope, access: seq<string>) returns (r: Result<Type, TypeError>)
    ensures r == AccessType(sc, access)
  {
    var head := Head(access);
    if head !in sc {
      return Err(NotDefined(head));
    }
    var entry := sc[head];
    if entry.ty.Struct? {
      if |access| == 1 {
        return Ok(entry.ty);
      }
      var curType := entry.ty;
      var pathName := head;
      var i := 1;
      while i < |access|
        invariant 1 <= i <= |access| || (|access| == 0 && i == 1)
        invariant |access| == 0 ==> curType == entry.ty
        invariant |access| > 1 ==>
          AccessType(sc, access) == Walk(curType, Tag(entry.ty), pathName, access[i..], access[1])
        decreases |access| - i
      {
        var curName := access[i];
        if !curType.Struct? {
          return Err(PropertyOnNonStruct(access[1], Tag(entry.ty)));
        }
        var k := Find(curType.properties, curName);
        if k == |curType.properties| {
          return Err(NoProperty(pathName, curName));
        }
        assert access[i..][1..] == access[i + 1..];
        pathName := pathName + "." + curName;
        curType := curType.properties[k].ty;
        i := i + 1;
      }
      return Ok(curType);
    } else {
      if |access| > 1 {
        return Err(PropertyOnNonStruct(access[1], Tag(entry.ty)));
      }
      return Ok(entry.ty);
    }
  }

  /** One more segment on a path of at least two: a property lookup on the type found so far. */
  lemma {:induction false} WalkSnoc(t: Type, rootTag: string, pathName: string, rest: seq<string>, second: string, name: string)
    requires Walk(t, rootTag, pathName, rest, second).Ok?
    ensures var u := Walk(t, rootTag, pathName, rest, second).value;
      Walk(t, rootTag, pathName, rest + [name], second) ==
        if !u.Struct? then Err(PropertyOnNonStruct(second, rootTag))
        else if Find(u.properties, name) == |u.properties| then Err(NoProperty(DottedFrom(pathName, rest), name))
        else Ok(u.properties[Find(u.properties, name)].ty)
    decreases |rest|
  {
    if rest == [] {
      assert ([] + [name])[1..] == [];
    } else {
      var k := Find(t.properties, rest[0]);
      assert (rest + [name])[0] == rest[0];
      assert (rest + [name])[1..] == rest[1..] + [name];
      WalkSnoc(t.properties[k].ty, rootTag, pathName + "." + rest[0], rest[1..], second, name);
    }
  }

  /** The dotted name of a walked path, as the missing-property message prints it. */
  function DottedFrom(pathName: string, rest: seq<string>): string
    decreases |rest|
  {
    if rest == [] then pathName else DottedFrom(pathName + "." + rest[0], rest[1..])
  }

  /**
   * Paths compose: the type of `path + [name]` is the property `name` of the
   * type of `path`, and a failing path keeps failing with the same error.
   */
  lemma AccessTypeSnoc(sc: Scope, path: seq<string>, name: string)
    requires |path| >= 1
    ensures var r := AccessType(sc, path);
      AccessType(sc, path + [name]) ==
        if r.Err? then r
        else if !r.value.Struct? then Err(PropertyOnNonStruct((path + [name])[1], Tag(sc[path[0]].ty)))
        else if Find(r.value.properties, name) == |r.value.properties| then Err(NoProperty(DottedFrom(path[0], path[1..]), name))
        else Ok(r.value.properties[Find(r.value.properties, name)].ty)
  {
    var p := path + [name];
    assert p[0] == path[0];
    if path[0] in sc {
      var t := sc[path[0]].ty;
      if |path| == 1 {
        assert p[1..] == [name];
        assert path[1..] == [];
        assert [name][1..] == [];
        assert DottedFrom(path[0], path[1..]) == path[0];
        assert AccessType(sc, p) == Walk(t, Tag(t), path[0], [name], name);
        if t.Struct? {
          var k := Find(t.properties, name);
          if k < |t.properties| {
            assert Walk(t, Tag(t), path[0], [name], name) == Walk(t.properties[k].ty, Tag(t), path[0] + "." + name, [], name);
          }
        }
      } else {
        assert p[1..] == path[1..] + [name];
        assert p[1] == path[1];
        if Walk(t, Tag(t), path[0], path[1..], path[1]).Ok? {
          WalkSnoc(t, Tag(t), path[0], path[1..], path[1], name);
        } else {
          WalkErrSnoc(t, Tag(t), path[0], path[1..], path[1], name);
        }
      }
    }
  }

  lemma {:induction false} WalkErrSnoc(t: Type, rootTag: string, pathName: string, rest: seq<string>, second: string, name: string)
    requires Walk(t, rootTag, pathName, rest, second).Err?
    ensures Walk(t, rootTag, pathName, rest + [name], second) == Walk(t, rootTag, pathName, rest, second)
    decreases |rest|
  {
    assert rest != [];
    assert (rest + [name])[0] == rest[0];
    if t.Struct? {
      var k := Find(t.properties, rest[0]);
      if k < |t.properties| {
        assert (rest + [name])[1..] == rest[1..] + [name];
        WalkErrSnoc(t.properties[k].ty, rootTag, pathName + "." + rest[0], rest[1..], second, name);
      }
    }
  }

  // ---------------------------------------------------------------------------
  // Expressions
  // ---------------------------------------------------------------------------

  /** An expression with every annotation erased, as the parser produces it. */
  function Strip(e: Expr): Expr {
    match e
    case Ternary(t, c, a, _) => Ternary(Strip(t), Strip(c), Strip(a), Unchecked)
    case Binary(op, l, r, _) => Binary(op, Strip(l), Strip(r), Unchecked)
    case Unary(op, x, _) => Unary(op, Strip(x), Unchecked)
    case Cast(op, x, _) => Cast(op, Strip(x), Unchecked)
    case IntLiteral(v, _) => IntLiteral(v, Unchecked)
    case FloatLiteral(v, _) => FloatLiteral(v, Unchecked)
    case BooleanLiteral(v, _) => BooleanLiteral(v, Unchecked)
    case Access(p, _) => Access(p, Unchecked)
  }

  predicate Numeric(t: Type) {
    t.Float? || t.Int?
  }

  /** The result type of a cast. */
  function CastType(op: CastOp): Type {
    match op
    case ToInt => Int
    case ToFloat => Float
    case ToBool => Boolean
  }

  /** The typing rule of each binary operator: operand types `lt`, `rt` admit result `t`. */
  predicate BinaryRule(op: BinaryOp, lt: Type, rt: Type, t: Type) {
    TypesEqual(lt, rt) &&
    match op
    case Or | And => lt.Boolean? && t == Boolean
    case Eq | Ne => t == Boolean
    case Le | Lt | Ge | Gt => Numeric(lt) && t == Boolean
    case Add | Sub | Mul | Div => Numeric(lt) && t == lt
    case Mod => lt.Int? && t == lt
  }

  /**
   * A correctly annotated expression: every node records `sc` and a type
   * that the typing rule of its kind admits from its children's types.
   */
  predicate WellTyped(sc: Scope, e: Expr) {
    e.note.Checked? && e.note.scope == sc &&
    var t := e.note.exprType;
    match e
    case Ternary(test, c, a, _) =>
      WellTyped(sc, test) && WellTyped(sc, c) && WellTyped(sc, a) &&
      TypeOf(test).Boolean? && TypesEqual(TypeOf(c), TypeOf(a)) && t == TypeOf(c)
    case Binary(op, l, r, _) =>
      WellTyped(sc, l) && WellTyped(sc, r) && BinaryRule(op, TypeOf(l), TypeOf(r), t)
    case Unary(op, x, _) =>
      WellTyped(sc, x) && t == TypeOf(x) &&
      (if op == Not then TypeOf(x).Boolean? else Numeric(TypeOf(x)))
    case Cast(op, x, _) =>
      WellTyped(sc, x) && !TypeOf(x).Struct? && t == CastType(op)
    case IntLiteral(_, _) => t == Int
    case FloatLiteral(_, _) => t == Float
    case BooleanLiteral(_, _) => t == Boolean
    case Access(path, _) => AccessType(sc, path) == Ok(t)
  }

  /** The binary-operator checks of analyzeExpression, in the source's order. */
  function BinaryType(op: BinaryOp, lt: Type, rt: Type): (r: Result<Type, TypeError>)
    ensures r.Err? ==> forall t :: !BinaryRule(op, lt, rt, t)
    ensures r.Ok? ==> BinaryRule(op, lt, rt, r.value)
  {
    var bad := Err(BinaryOperands(op, Tag(lt), Tag(rt)));
    match op
    case Or | And =>
      if !TypesEqual(lt, rt) || !lt.Boolean? then bad else Ok(Boolean)
    case Eq | Ne =>
      if !TypesEqual(lt, rt) then bad else Ok(Boolean)
    case Le | Lt | Ge | Gt =>
      if !TypesEqual(lt, rt) || !Numeric(lt) then bad else Ok(Boolean)
    case Add | Sub | Mul | Div =>
      if !TypesEqual(lt, rt) || !Numeric(lt) then bad else Ok(lt)
    case Mod =>
      if !TypesEqual(lt, rt) || !lt.Int? then bad else Ok(lt)
  }

  /**
   * analyzeExpression: children first, then the node's own check; the result
   * is the same expression with every node annotated with `sc` and its type.
   */
  function AnalyzeExpr(e: Expr, sc: Scope): (r: Result<Expr, TypeError>)
    ensures r.Ok? ==> r.value.note.Checked? && r.value.note.scope == sc
    ensures r.Ok? ==> Strip(r.value) == Strip(e)
  {
    match e
    case Ternary(test, c, a, _) =>
      var test' :- AnalyzeExpr(test, sc);
      var c' :- AnalyzeExpr(c, sc);
      var a' :- AnalyzeExpr(a, sc);
      if !TypeOf(test').Boolean? then Err(TernaryCondition(Tag(TypeOf(test'))))
      else if !TypesEqual(TypeOf(c'), TypeOf(a')) then Err(TernaryBranches(Tag(TypeOf(c')), Tag(TypeOf(a'))))
      else Ok(Ternary(test', c', a', Checked(sc, TypeOf(c'))))
    case Binary(op, l, r, _) =>
      var l' :- AnalyzeExpr(l, sc);
      var r' :- AnalyzeExpr(r, sc);
      var t :- BinaryType(op, TypeOf(l'), TypeOf(r'));
      Ok(Binary(op, l', r', Checked(sc, t)))
    case Unary(op, x, _) =>
      var x' :- AnalyzeExpr(x, sc);
      if op == Not && !TypeOf(x').Boolean? then Err(NotOperand(Tag(TypeOf(x'))))
      else if op == Neg && !Numeric(TypeOf(x')) then Err(NegOperand(Tag(TypeOf(x'))))
      else Ok(Unary(op, x', Checked(sc, TypeOf(x'))))
    case Cast(op, x, _) =>
      var x' :- AnalyzeExpr(x, sc);
      if TypeOf(x').Struct? then Err(CastOperand(Tag(TypeOf(x')), op))
      else Ok(Cast(op, x', Checked(sc, CastType(op))))
    case IntLiteral(v, _) => Ok(IntLiteral(v, Checked(sc, Int)))
    case FloatLiteral(v, _) => Ok(FloatLiteral(v, Checked(sc, Float)))
    case BooleanLiteral(v, _) => Ok(BooleanLiteral(v, Checked(sc, Boolean)))
    case Access(path, _) =>
      var t :- AccessType(sc, path);
      Ok(Access(path, Checked(sc, t)))
  }

  /** Soundness: what the checker returns is a correctly annotated tree. */
  lemma {:induction false} AnalyzeExprSound(e: Expr, sc: Scope)
    requires AnalyzeExpr(e, sc).Ok?
    ensures WellTyped(sc, AnalyzeExpr(e, sc).value)
  {
    match e
    case Ternary(test, c, a, _) =>
      AnalyzeExprSound(test, sc);
      AnalyzeExprSound(c, sc);
      AnalyzeExprSound(a, sc);
    case Binary(_, l, r, _) =>
      AnalyzeExprSound(l, sc);
      AnalyzeExprSound(r, sc);
    case Unary(_, x, _) =>
      AnalyzeExprSound(x, sc);
    case Cast(_, x, _) =>
      AnalyzeExprSound(x, sc);
    case IntLiteral(_, _) =>
    case FloatLiteral(_, _) =>
    case BooleanLiteral(_, _) =>
    case Access(_, _) =>
  }

  /**
   * Completeness and uniqueness: if some annotation of `e` is correct, the
   * checker accepts `e` and returns exactly that annotation.
   */
  lemma {:induction false} AnalyzeExprComplete(e: Expr, sc: Scope, e': Expr)
    requires WellTyped(sc, e') && Strip(e') == Strip(e)
    ensures AnalyzeExpr(e, sc) == Ok(e')
  {
    match e
    case Ternary(test, c, a, n) =>
      AnalyzeExprComplete(test, sc, e'.test);
      AnalyzeExprComplete(c, sc, e'.consequent);
      AnalyzeExprComplete(a, sc, e'.alternate);
      TernaryComplete(test, c, a, n, sc, e');
    case Binary(op, l, r, n) =>
      AnalyzeExprComplete(l, sc, e'.left);
      AnalyzeExprComplete(r, sc, e'.right);
      BinaryComplete(op, l, r, n, sc, e');
    case Unary(op, x, n) =>
      AnalyzeExprComplete(x, sc, e'.operand);
      UnaryComplete(op, x, n, sc, e');
    case Cast(op, x, n) =>
      AnalyzeExprComplete(x, sc, e'.operand);
      CastComplete(op, x, n, sc, e');
    case IntLiteral(_, _) =>
    case FloatLiteral(_, _) =>
    case BooleanLiteral(_, _) =>
    case Access(_, _) =>
  }

  lemma TernaryComplete(test: Expr, c: Expr, a: Expr, n: Note, sc: Scope, e': Expr)
    requires e'.Ternary? && WellTyped(sc, e')
    requires AnalyzeExpr(test, sc) == Ok(e'.test) && AnalyzeExpr(c, sc) == Ok(e'.consequent)
    requires AnalyzeExpr(a, sc) == Ok(e'.alternate)
    ensures AnalyzeExpr(Ternary(test, c, a, n), sc) == Ok(e')
  {
    assert e' == Ternary(e'.test, e'.consequent, e'.alternate, Checked(sc, TypeOf(e'.consequent)));
  }

  lemma BinaryComplete(op: BinaryOp, l: Expr, r: Expr, n: Note, sc: Scope, e': Expr)
    requires e'.Binary? && e'.binop == op && WellTyped(sc, e')
    requires AnalyzeExpr(l, sc) == Ok(e'.left) && AnalyzeExpr(r, sc) == Ok(e'.right)
    ensures AnalyzeExpr(Binary(op, l, r, n), sc) == Ok(e')
  {
    assert e' == Binary(op, e'.left, e'.right, Checked(sc, e'.note.exprType));
  }

  lemma UnaryComplete(op: UnaryOp, x: Expr, n: Note, sc: Scope, e': Expr)
    requires e'.Unary? && e'.unop == op && WellTyped(sc, e')
    requires AnalyzeExpr(x, sc) == Ok(e'.operand)
    ensures AnalyzeExpr(Unary(op, x, n), sc) == Ok(e')
  {
    assert e' == Unary(op, e'.operand, Checked(sc, TypeOf(e'.operand)));
  }

  lemma CastComplete(op: CastOp, x: Expr, n: Note, sc: Scope, e': Expr)
    requires e'.Cast? && e'.castTo == op && WellTyped(sc, e')
    requires AnalyzeExpr(x, sc) == Ok(e'.operand)
    ensures AnalyzeExpr(Cast(op, x, n), sc) == Ok(e')
  {
    assert e' == Cast(op, e'.operand, Checked(sc, CastType(op)));
  }

  /** The checker fails exactly on the expressions no correct annotation exists for. */
  lemma AnalyzeExprFails(e: Expr, sc: Scope)
    ensures AnalyzeExpr(e, sc).Err? <==> !exists e' :: WellTyped(sc, e') && Strip(e') == Strip(e)
  {
    var r := AnalyzeExpr(e, sc);
    if r.Ok? {
      AnalyzeExprSound(e, sc);
      Annotated(sc, e, r.value);
    } else {
      forall e' | WellTyped(sc, e')
        ensures Strip(e') != Strip(e)
      {
        if Strip(e') == Strip(e) {
          AnalyzeExprComplete(e, sc, e');
        }
      }
    }
  }

  /** A correct annotation of `e` witnesses that one exists. */
  lemma Annotated(sc: Scope, e: Expr, w: Expr)
    requires WellTyped(sc, w) && Strip(w) == Strip(e)
    ensures exists e' :: WellTyped(sc, e') && Strip(e') == Strip(e)
  {
  }

  // ---------------------------------------------------------------------------
  // Statements
  // ---------------------------------------------------------------------------

  /** The type a declaration keyword names; any other keyword is "not implemented". */
  function TypenameType(typename: string): Option<Type> {
    if typename == "bool" then Some(Boolean)
    else if typename == "int" then Some(Int)
    else if typename == "float" then Some(Float)
    else None
  }

  /** The scope after a statement: only a declaration with a known keyword extends it. */
  function After(sc: Scope, s: Stmt): Scope {
    if s.Declaration? && TypenameType(s.typename).Some? then
      ScopeWithVar(sc, s.name, TypenameType(s.typename).value, Declared(s.name, s.typename))
    else sc
  }

  function StripOpt(e: Option<Expr>): Option<Expr> {
    if e.Some? then Some(Strip(e.value)) else None
  }

  /** A statement with every annotation erased. */
  function StripStmt(s: Stmt): Stmt {
    match s
    case Block(body, _) => Block(StripBody(body), None)
    case Declaration(name, init, typename, _, _) => Declaration(name, StripOpt(init), typename, None, None)
    case Assignment(path, _, op, value, _) => Assignment(path, Unchecked, op, Strip(value), None)
    case Conditional(test, th, el, _) =>
      Conditional(Strip(test), StripStmt(th), if el.Some? then Some(StripStmt(el.value)) else None, None)
  }

  function StripBody(body: seq<Stmt>): (r: seq<Stmt>)
    ensures |r| == |body|
  {
    if body == [] then [] else [StripStmt(body[0])] + StripBody(body[1..])
  }

  /**
   * A correctly annotated statement: it records `sc`, its expressions are
   * correctly annotated in `sc`, and a block's statements each in the scope
   * its predecessors leave.
   */
  predicate WellTypedStmt(sc: Scope, s: Stmt)
    decreases s, 1
  {
    s.scope == Some(sc) &&
    match s
    case Block(body, _) => WellTypedBody(sc, body)
    case Declaration(_, init, typename, varType, _) =>
      TypenameType(typename).Some? && varType == TypenameType(typename) &&
      (init.Some? ==> WellTyped(sc, init.value) && TypesEqual(TypeOf(init.value), varType.value))
    case Assignment(path, note, _, value, _) =>
      WellTyped(sc, Access(path, note)) && WellTyped(sc, value) &&
      TypesEqual(note.exprType, TypeOf(value))
    case Conditional(test, th, el, _) =>
      WellTyped(sc, test) && TypeOf(test).Boolean? &&
      WellTypedStmt(sc, th) && (el.Some? ==> WellTypedStmt(sc, el.value))
  }

  predicate WellTypedBody(sc: Scope, body: seq<Stmt>)
    decreases body, 0
  {
    body != [] ==> WellTypedStmt(sc, body[0]) && WellTypedBody(After(sc, body[0]), body[1..])
  }

  /** The scope a sequence of statements leaves, each extending it in turn. */
  function AfterBody(sc: Scope, body: seq<Stmt>): Scope
    decreases body
  {
    if body == [] then sc else AfterBody(After(sc, body[0]), body[1..])
  }

  /**
   * analyzeStatement: the annotated statement and the scope it leaves. A
   * declaration returns the scope extended with its name; a block, an
   * assignment and a conditional return their input scope, so nothing
   * declared inside them is visible after them.
   */
  function AnalyzeStmt(s: Stmt, sc: Scope): (r: Result<(Stmt, Scope), TypeError>)
    ensures r.Ok? ==> r.value.1 == After(sc, s)
    ensures r.Ok? ==> r.value.0.scope == Some(sc) && StripStmt(r.value.0) == StripStmt(s)
    decreases s, 1
  {
    match s
    case Block(body, _) =>
      var res :- AnalyzeBody(body, sc);
      Ok((Block(res.0, Some(sc)), sc))
    case Declaration(name, init, typename, _, _) =>
      var vt := TypenameType(typename);
      if vt.None? then Err(UnknownTypename(typename))
      else if init.None? then
        Ok((Declaration(name, None, typename, vt, Some(sc)), ScopeWithVar(sc, name, vt.value, Declared(name, typename))))
      else
        var init' :- AnalyzeExpr(init.value, sc);
        if !TypesEqual(TypeOf(init'), vt.value) then Err(InitMismatch(Tag(vt.value), Tag(TypeOf(init'))))
        else Ok((Declaration(name, Some(init'), typename, vt, Some(sc)), ScopeWithVar(sc, name, vt.value, Declared(name, typename))))
    case Assignment(path, note, op, value, _) =>
      var target' :- AnalyzeExpr(Access(path, note), sc);
      var value' :- AnalyzeExpr(value, sc);
      if !TypesEqual(TypeOf(target'), TypeOf(value')) then Err(AssignMismatch(Tag(TypeOf(value'))))
      else Ok((Assignment(path, target'.note, op, value', Some(sc)), sc))
    case Conditional(test, th, el, _) =>
      var test' :- AnalyzeExpr(test, sc);
      if !TypeOf(test').Boolean? then Err(ConditionNotBoolean(Tag(TypeOf(test'))))
      else
        var th' :- AnalyzeStmt(th, sc);
        if el.None? then Ok((Conditional(test', th'.0, None, Some(sc)), sc))
        else
          var el' :- AnalyzeStmt(el.value, sc);
          Ok((Conditional(test', th'.0, Some(el'.0), Some(sc)), sc))
  }

  /** The statements of a block or program, each analysed in the scope the previous one left. */
  function AnalyzeBody(body: seq<Stmt>, sc: Scope): (r: Result<(seq<Stmt>, Scope), TypeError>)
    ensures r.Ok? ==> r.value.1 == AfterBody(sc, body)
    ensures r.Ok? ==> StripBody(r.value.0) == StripBody(body)
    decreases body, 0
  {
    if body == [] then Ok(([], sc))
    else
      var first :- AnalyzeStmt(body[0], sc);
      var rest :- AnalyzeBody(body[1..], first.1);
      assert ([first.0] + rest.0)[1..] == rest.0;
      Ok(([first.0] + rest.0, rest.1))
  }

  /** Soundness for statements. */
  lemma {:induction false} AnalyzeStmtSound(s: Stmt, sc: Scope)
    requires AnalyzeStmt(s, sc).Ok?
    ensures WellTypedStmt(sc, AnalyzeStmt(s, sc).value.0)
    decreases s, 1
  {
    match s
    case Block(body, _) =>
      AnalyzeBodySound(body, sc);
    case Declaration(_, init, _, _, _) =>
      if init.Some? {
        AnalyzeExprSound(init.value, sc);
      }
    case Assignment(path, note, _, value, _) =>
      AnalyzeExprSound(Access(path, note), sc);
      AnalyzeExprSound(value, sc);
    case Conditional(test, th, el, _) =>
      AnalyzeExprSound(test, sc);
      AnalyzeStmtSound(th, sc);
      if el.Some? {
        AnalyzeStmtSound(el.value, sc);
      }
  }

  lemma {:induction false} AnalyzeBodySound(body: seq<Stmt>, sc: Scope)
    requires AnalyzeBody(body, sc).Ok?
    ensures WellTypedBody(sc, AnalyzeBody(body, sc).value.0)
    decreases body, 0
  {
    if body != [] {
      var first := AnalyzeStmt(body[0], sc).value;
      AnalyzeStmtSound(body[0], sc);
      AnalyzeBodySound(body[1..], first.1);
      var rest := AnalyzeBody(body[1..], first.1).value;
      assert AnalyzeBody(body, sc).value.0 == [first.0] + rest.0;
      assert ([first.0] + rest.0)[1..] == rest.0;
      assert After(sc, first.0) == After(sc, body[0]);
    }
  }

  /** Completeness and uniqueness for statements. */
  lemma {:induction false} AnalyzeStmtComplete(s: Stmt, sc: Scope, s': Stmt)
    requires WellTypedStmt(sc, s') && StripStmt(s') == StripStmt(s)
    ensures AnalyzeStmt(s, sc) == Ok((s', After(sc, s)))
    decreases s, 1
  {
    match s
    case Block(body, _) =>
      AnalyzeBodyComplete(body, sc, s'.body);
    case Declaration(_, init, _, _, _) =>
      if init.Some? {
        AnalyzeExprComplete(init.value, sc, s'.init.value);
      }
    case Assignment(path, note, _, value, _) =>
      AnalyzeExprComplete(Access(path, note), sc, Access(path, s'.targetNote));
      AnalyzeExprComplete(value, sc, s'.value);
    case Conditional(test, th, el, _) =>
      AnalyzeExprComplete(test, sc, s'.condition);
      AnalyzeStmtComplete(th, sc, s'.thenStmt);
      if el.Some? {
        AnalyzeStmtComplete(el.value, sc, s'.elseStmt.value);
      }
  }

  lemma {:induction false} AnalyzeBodyComplete(body: seq<Stmt>, sc: Scope, body': seq<Stmt>)
    requires WellTypedBody(sc, body') && StripBody(body') == StripBody(body)
    ensures AnalyzeBody(body, sc) == Ok((body', AfterBody(sc, body)))
    decreases body, 0
  {
    if body != [] {
      assert StripBody(body')[0] == StripStmt(body'[0]);
      assert StripBody(body')[1..] == StripBody(body'[1..]);
      AnalyzeStmtComplete(body[0], sc, body'[0]);
      assert After(sc, body'[0]) == After(sc, body[0]);
      AnalyzeBodyComplete(body[1..], After(sc, body[0]), body'[1..]);
      assert [body'[0]] + body'[1..] == body';
    } else {
      assert body' == [];
    }
  }

  /** `[done] ++` a block's remaining result: how a loop over a block's statements accumulates. */
  function Prepend(done: seq<Stmt>, r: Result<(seq<Stmt>, Scope), TypeError>): Result<(seq<Stmt>, Scope), TypeError> {
    match r
    case Ok(v) => Ok((done + v.0, v.1))
    case Err(e) => Err(e)
  }

  lemma PrependNil(body: seq<Stmt>, sc: Scope)
    ensures Prepend([], AnalyzeBody(body[0..], sc)) == AnalyzeBody(body, sc)
  {
    assert body[0..] == body;
    var r := AnalyzeBody(body, sc);
    if r.Ok? {
      assert [] + r.value.0 == r.value.0;
    }
  }

  /** Unfolding a non-empty body one statement. */
  lemma BodyStep(body: seq<Stmt>, i: nat, sc: Scope, done: seq<Stmt>)
    requires i < |body|
    ensures var step := AnalyzeStmt(body[i], sc);
      Prepend(done, AnalyzeBody(body[i..], sc)) ==
        if step.Err? then Err(step.error)
        else Prepend(done + [step.value.0], AnalyzeBody(body[i + 1..], step.value.1))
  {
    assert body[i..][0] == body[i];
    assert body[i..][1..] == body[i + 1..];
    var step := AnalyzeStmt(body[i], sc);
    if step.Ok? {
      var rest := AnalyzeBody(body[i + 1..], step.value.1);
      if rest.Ok? {
        assert done + ([step.value.0] + rest.value.0) == (done + [step.value.0]) + rest.value.0;
      }
    }
  }

  /**
   * analyzeStatement with the source's loop over a block's statements; a
   * conditional's branches are analysed by recursive calls.
   */
  method AnalyzeStatement(s: Stmt, sc: Scope) returns (r: Result<(Stmt, Scope), TypeError>)
    ensures r == AnalyzeStmt(s, sc)
    decreases s
  {
    match s {
      case Block(body, _) =>
        var cur := sc;
        var done: seq<Stmt> := [];
        var i := 0;
        PrependNil(body, sc);
        while i < |body|
          invariant 0 <= i <= |body|
          invariant AnalyzeBody(body, sc) == Prepend(done, AnalyzeBody(body[i..], cur))
        {
          BodyStep(body, i, cur, done);
          var step := AnalyzeStatement(body[i], cur);
          if step.Err? {
            return Err(step.error);
          }
          done := done + [step.value.0];
          cur := step.value.1;
          i := i + 1;
        }
        assert body[i..] == [];
        assert done + [] == done;
        r := Ok((Block(done, Some(sc)), sc));
      case Conditional(test, th, el, _) =>
        var test' := AnalyzeExpr(test, sc);
        if test'.Err? {
          return Err(test'.error);
        }
        if !TypeOf(test'.value).Boolean? {
          return Err(ConditionNotBoolean(Tag(TypeOf(test'.value))));
        }
        var th' := AnalyzeStatement(th, sc);
        if th'.Err? {
          return Err(th'.error);
        }
        if el.None? {
          return Ok((Conditional(test'.value, th'.value.0, None, Some(sc)), sc));
        }
        var el' := AnalyzeStatement(el.value, sc);
        if el'.Err? {
          return Err(el'.error);
        }
        r := Ok((Conditional(test'.value, th'.value.0, Some(el'.value.0), Some(sc)), sc));
      case Declaration(_, _, _, _, _) =>
        r := AnalyzeStmt(s, sc);
      case Assignment(_, _, _, _, _) =>
        r := AnalyzeStmt(s, sc);
    }
  }

  // ---------------------------------------------------------------------------
  // Programs and the entry point
  // ---------------------------------------------------------------------------

  /** analyzeProgram's result: the program's statements threaded through the root scope. */
  function CheckProgram(p: Program, root: Scope): Result<Program, TypeError> {
    var res :- AnalyzeBody(p.stmts, root);
    Ok(Program(res.0, Some(root)))
  }

  /** A correctly annotated program. */
  predicate WellTypedProgram(root: Scope, p: Program) {
    p.programScope == Some(root) && WellTypedBody(root, p.stmts)
  }

  /** A program is accepted exactly when a correct annotation exists, and it is the one returned. */
  lemma CheckProgramCorrect(p: Program, root: Scope, p': Program)
    ensures CheckProgram(p, root).Ok? ==> WellTypedProgram(root, CheckProgram(p, root).value)
    ensures WellTypedProgram(root, p') && StripBody(p'.stmts) == StripBody(p.stmts) ==> CheckProgram(p, root) == Ok(p')
  {
    if CheckProgram(p, root).Ok? {
      AnalyzeBodySound(p.stmts, root);
    }
    if WellTypedProgram(root, p') && StripBody(p'.stmts) == StripBody(p.stmts) {
      AnalyzeBodyComplete(p.stmts, root, p'.stmts);
    }
  }

  /** analyzeProgram, with the source's loop threading the scope. */
  method AnalyzeProgram(p: Program, root: Scope) returns (r: Result<Program, TypeError>)
    ensures r == CheckProgram(p, root)
  {
    var scope := root;
    var done: seq<Stmt> := [];
    var i := 0;
    PrependNil(p.stmts, root);
    while i < |p.stmts|
      invariant 0 <= i <= |p.stmts|
      invariant AnalyzeBody(p.stmts, root) == Prepend(done, AnalyzeBody(p.stmts[i..], scope))
    {
      BodyStep(p.stmts, i, scope, done);
      var step := AnalyzeStatement(p.stmts[i], scope);
      if step.Err? {
        return Err(step.error);
      }
      done := done + [step.value.0];
      scope := step.value.1;
      i := i + 1;
    }
    assert p.stmts[i..] == [];
    assert done + [] == done;
    r := Ok(Program(done, Some(root)));
  }

  /** typecheck: an expression or a program root is analysed; any other root is refused. */
  method Typecheck(root: Root, sc: Scope) returns (r: Result<Root, TypeError>)
    ensures root.ExpressionRoot? ==> r == (var e :- AnalyzeExpr(root.expr, sc); Ok(ExpressionRoot(e)))
    ensures root.ProgramRoot? ==> r == (var p :- CheckProgram(root.program, sc); Ok(ProgramRoot(p)))
    ensures root.StatementRoot? ==> r == Err(InvalidRoot(StmtTag(root.stmt)))
  {
    match root {
      case ExpressionRoot(e) =>
        var res := AnalyzeExpr(e, sc);
        if res.Err? {
          return Err(res.error);
        }
        r := Ok(ExpressionRoot(res.value));
      case ProgramRoot(p) =>
        var res := AnalyzeProgram(p, sc);
        if res.Err? {
          return Err(res.error);
        }
        r := Ok(ProgramRoot(res.value));
      case StatementRoot(s) =>
        r := Err(InvalidRoot(StmtTag(s)));
    }
  }
}

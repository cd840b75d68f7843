/**
 * The rule language's syntax tree and types (parser.ts, the interfaces at the
 * top of the file; build/parser.d.ts declares the same shapes).
 *
 * Fields the type checker fills in place (`scope`, `expr_type`, `var_type`)
 * are modelled as annotations that start out empty; the checker returns the
 * tree with them filled.
 */
module Ast {
  import opened Wrappers

  /** `Boolean | Float | Int | Struct{properties}`; property order is the record's key order. */
  datatype Type = Boolean | Float | Int | Struct(properties: seq<Property>)

  datatype Property = Property(name: string, ty: Type)

  /** The `type` tag of a Type, as error messages print it. */
  function Tag(t: Type): string {
    match t
    case Boolean => "Boolean"
    case Float => "Float"
    case Int => "Int"
    case Struct(_) => "Struct"
  }

  /**
   * Where the value stored under `properties[key]` is: the index of the first
   * property with that name, or `|ps|` when there is none (`undefined`).
   */
  function Find(ps: seq<Property>, key: string): (i: nat)
    ensures i <= |ps|
    ensures i < |ps| ==> ps[i].name == key
    ensures forall j :: 0 <= j < i ==> ps[j].name != key
  {
    if ps == [] then 0
    else if ps[0].name == key then 0
    else 1 + Find(ps[1..], key)
  }

  /** `Object.keys(t1.properties).every((v, i) => Object.keys(t2.properties)[i] === v)`. */
  predicate NamesPrefix(p1: seq<Property>, p2: seq<Property>) {
    |p1| <= |p2| && forall i :: 0 <= i < |p1| ==> p1[i].name == p2[i].name
  }

  /**
   * typesEqual: two structs are equal when the first one's property names are
   * an in-order prefix of the second one's and the properties of the first one
   * have equal types in both; any other pair is equal when the tags are.
   */
  function TypesEqual(t1: Type, t2: Type): bool
    decreases t1
  {
    if t1.Struct? && t2.Struct? then
      var p1 := t1.properties;
      var p2 := t2.properties;
      NamesPrefix(p1, p2) &&
      forall i :: 0 <= i < |p1| ==>
        TypesEqual(p1[Find(p1, p1[i].name)].ty, p2[Find(p2, p1[i].name)].ty)
    else
      Tag(t1) == Tag(t2)
  }

  // ---------------------------------------------------------------------------
  // Scopes
  // ---------------------------------------------------------------------------

  /**
   * `ScopeEntry.declaration`: `null` for a built-in, read-only binding, or the
   * declaring statement, recorded here by its name and type keyword.
   */
  datatype Origin = BuiltIn | Declared(name: string, typename: string)

  datatype ScopeEntry = ScopeEntry(ty: Type, declaration: Origin)

  /** `Scope.variables`. */
  type Scope = map<string, ScopeEntry>

  // ---------------------------------------------------------------------------
  // Expressions and statements
  // ---------------------------------------------------------------------------

  datatype BinaryOp = Or | And | Eq | Ne | Le | Lt | Ge | Gt | Add | Sub | Mul | Div | Mod

  datatype UnaryOp = Not | Neg

  datatype CastOp = ToInt | ToFloat | ToBool

  /** An expression's `scope` and `expr_type`, unset until the checker visits it. */
  datatype Note = Unchecked | Checked(scope: Scope, exprType: Type)

  datatype Expr =
    | Ternary(test: Expr, consequent: Expr, alternate: Expr, note: Note)
    | Binary(binop: BinaryOp, left: Expr, right: Expr, note: Note)
    | Unary(unop: UnaryOp, operand: Expr, note: Note)
    | Cast(castTo: CastOp, operand: Expr, note: Note)
    | IntLiteral(intValue: int, note: Note)
      /** A float literal keeps the text JavaScript renders its value as (`${value}`). */
    | FloatLiteral(text: string, note: Note)
    | BooleanLiteral(boolValue: bool, note: Note)
    | Access(path: seq<string>, note: Note)

  /**
   * Statements. An assignment's target is always an `Access` node, so it is
   * kept as that node's path and annotation.
   */
  datatype Stmt =
    | Block(body: seq<Stmt>, scope: Option<Scope>)
    | Declaration(name: string, init: Option<Expr>, typename: string, varType: Option<Type>, scope: Option<Scope>)
    | Assignment(targetPath: seq<string>, targetNote: Note, assignOp: string, value: Expr, scope: Option<Scope>)
    | Conditional(condition: Expr, thenStmt: Stmt, elseStmt: Option<Stmt>, scope: Option<Scope>)

  datatype Program = Program(stmts: seq<Stmt>, programScope: Option<Scope>)

  /** What `typecheck` may be handed: an expression, a program, or (wrongly) a statement. */
  datatype Root = ExpressionRoot(expr: Expr) | ProgramRoot(program: Program) | StatementRoot(stmt: Stmt)

  /** A statement node's `type` tag. */
  function StmtTag(s: Stmt): string {
    match s
    case Block(_, _) => "Block"
    case Declaration(_, _, _, _, _) => "Declaration"
    case Assignment(_, _, _, _, _) => "Assignment"
    case Conditional(_, _, _, _) => "Conditional"
  }

  /** The type the checker recorded on an expression. */
  function TypeOf(e: Expr): Type
    requires e.note.Checked?
  {
    e.note.exprType
  }

  // ---------------------------------------------------------------------------
  // Properties of typesEqual
  // ---------------------------------------------------------------------------

  /** typesEqual compares every type with itself as equal. */
  lemma {:induction false} TypesEqualReflexive(t: Type)
    ensures TypesEqual(t, t)
    decreases t
  {
    if t.Struct? {
      var p := t.properties;
      forall i | 0 <= i < |p|
        ensures TypesEqual(p[Find(p, p[i].name)].ty, p[Find(p, p[i].name)].ty)
      {
        TypesEqualReflexive(p[Find(p, p[i].name)].ty);
      }
    }
  }

  /** When names agree position by position, the first match of a name is at the same place. */
  lemma FindInPrefix(p1: seq<Property>, p2: seq<Property>, key: string)
    requires NamesPrefix(p1, p2)
    requires Find(p1, key) < |p1|
    ensures Find(p2, key) == Find(p1, key)
  {
    var k := Find(p1, key);
    assert p2[k].name == key;
  }

  /** typesEqual is transitive: with reflexivity it is a preorder (struct prefixes). */
  lemma {:induction false} TypesEqualTransitive(a: Type, b: Type, c: Type)
    requires TypesEqual(a, b) && TypesEqual(b, c)
    ensures TypesEqual(a, c)
    decreases a
  {
    if a.Struct? {
      assert b.Struct? && c.Struct?;
      var pa, pb, pc := a.properties, b.properties, c.properties;
      assert NamesPrefix(pa, pc);
      forall i | 0 <= i < |pa|
        ensures TypesEqual(pa[Find(pa, pa[i].name)].ty, pc[Find(pc, pa[i].name)].ty)
      {
        var key := pa[i].name;
        var k := Find(pa, key);
        FindInPrefix(pa, pb, key);
        FindInPrefix(pb, pc, key);
        assert pb[k].name == key;
        assert TypesEqual(pb[Find(pb, pb[k].name)].ty, pc[Find(pc, pb[k].name)].ty);
        TypesEqualTransitive(pa[k].ty, pb[k].ty, pc[k].ty);
      }
    } else {
      assert !b.Struct?;
    }
  }

  /** Two types that are not both structs are equal exactly when their tags are. */
  lemma TypesEqualScalar(t1: Type, t2: Type)
    requires !t1.Struct? || !t2.Struct?
    ensures TypesEqual(t1, t2) <==> t1 == t2
  {
  }

  /** typesEqual is not symmetric: a struct is "equal" to any struct that extends it. */
  lemma TypesEqualNotSymmetric()
    ensures var small := Struct([Property("alive", Boolean)]);
      var large := Struct([Property("alive", Boolean), Property("age", Int)]);
      TypesEqual(small, large) && !TypesEqual(large, small)
  {
    var small := Struct([Property("alive", Boolean)]);
    var large := Struct([Property("alive", Boolean), Property("age", Int)]);
    var p := small.properties;
    assert Find(p, "alive") == 0;
    assert Find(large.properties, "alive") == 0;
  }
}

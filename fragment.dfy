/**
 * What the two simple-rule shader builders share (ca_fragment_shader in
 * ca.js and shaderSourceFromSimpleRuleset in index.ts): the condition a
 * list of neighbour counts becomes, the age guard, and the shader text as a
 * template whose holes are filled with names and conditions.
 */
module Fragment {
  import opened Wrappers
  import opened Strings

  // ---------------------------------------------------------------------------
  // Conditions
  // ---------------------------------------------------------------------------

  const ClausePrefix := "neighbours == "
  const Or := " || "
  /** The first line of every generated fragment shader. */
  const VersionLine := "#version 300 es"

  /** `neighbours == ${num}`. */
  function Clause(num: int): string {
    ClausePrefix + IntToString(num)
  }

  /** `nums.map(num => \`neighbours == ${num}\`)`. */
  function Clauses(nums: seq<int>): (r: seq<string>)
    ensures |r| == |nums|
    ensures forall i :: 0 <= i < |nums| ==> r[i] == Clause(nums[i])
  {
    seq(|nums|, i requires 0 <= i < |nums| => Clause(nums[i]))
  }

  /** The clauses of `nums`, joined by ` || `; empty for no numbers. */
  function Condition(nums: seq<int>): string {
    Join(Clauses(nums), Or)
  }

  /** `(${cond}) && age < ${limit}`: the condition, also requiring an age below `limit`. */
  function AgeGuarded(cond: string, limit: int): (r: string)
    ensures |r| > |cond| + 1
    ensures r[..1] == "(" && r[1..|cond| + 1] == cond
    ensures r[|cond| + 1..] == ") && age < " + IntToString(limit)
  {
    var tail := ") && age < " + IntToString(limit);
    Parts("(", cond, tail);
    "(" + cond + tail
  }

  /** Where each of three concatenated texts sits in the whole. */
  lemma Parts(a: string, b: string, c: string)
    ensures var s := a + b + c;
      && s[..|a|] == a && s[|a|..|a| + |b|] == b && s[|a| + |b|..] == c
  {
  }

  // ---------------------------------------------------------------------------
  // Reading a condition back
  // ---------------------------------------------------------------------------

  predicate IsDigit(c: char) {
    0 <= DigitValue(c) < 10
  }

  /** The number of decimal digits `s` starts with. */
  function DigitsEnd(s: string): (k: nat)
    ensures k <= |s|
    ensures forall i :: 0 <= i < k ==> IsDigit(s[i])
  {
    if s != [] && IsDigit(s[0]) then 1 + DigitsEnd(s[1..]) else 0
  }

  /** The length of the optionally signed numeral `s` starts with. */
  function NumeralEnd(s: string): (k: nat)
    ensures k <= |s|
    ensures forall i :: 0 <= i < k ==> (i == 0 && s[i] == '-') || IsDigit(s[i])
  {
    if s != [] && s[0] == '-' then 1 + DigitsEnd(s[1..]) else DigitsEnd(s)
  }

  /**
   * One clause at the start of `s`: its number and the text after it, or
   * None when `s` does not start with a clause.
   */
  function ReadClause(s: string): (r: Option<(int, string)>)
    ensures r.Some? ==> |r.value.1| < |s|
  {
    var p := |ClausePrefix|;
    if |s| < p || s[..p] != ClausePrefix then None
    else
      var rest := s[p..];
      var k := NumeralEnd(rest);
      if k == 0 then None else Some((ParseInt(rest[..k]), rest[k..]))
  }

  /** The numbers of a non-empty condition, or None when `s` is not one. */
  function ParseClauses(s: string): Option<seq<int>>
    decreases |s|
  {
    match ReadClause(s)
    case None => None
    case Some((num, after)) =>
      if after == [] then Some([num])
      else if |after| >= |Or| && after[..|Or|] == Or then
        match ParseClauses(after[|Or|..])
        case None => None
        case Some(more) => Some([num] + more)
      else None
  }

  /** The numbers a condition tests, in order; the empty text tests none. */
  function ParseCondition(s: string): Option<seq<int>> {
    if s == [] then Some([]) else ParseClauses(s)
  }

  lemma {:induction false} DigitsEndOf(d: string, tail: string)
    requires forall i :: 0 <= i < |d| ==> IsDigit(d[i])
    requires tail == [] || !IsDigit(tail[0])
    ensures DigitsEnd(d + tail) == |d|
  {
    if d != [] {
      assert (d + tail)[1..] == d[1..] + tail;
      DigitsEndOf(d[1..], tail);
    }
  }

  /** A rendered number followed by nothing or by a space is read back whole. */
  lemma NumeralEndOf(num: int, tail: string)
    requires tail == [] || tail[0] == ' '
    ensures NumeralEnd(IntToString(num) + tail) == |IntToString(num)|
  {
    var s := IntToString(num);
    if num < 0 {
      var digits := NatToString(-num, 10);
      assert s == "-" + digits;
      assert (s + tail)[1..] == digits + tail;
      DigitsEndOf(digits, tail);
    } else {
      DigitsEndOf(NatToString(num, 10), tail);
    }
  }

  /** A clause followed by nothing or by a space is read back as its number. */
  lemma ReadClauseOf(num: int, tail: string)
    requires tail == [] || tail[0] == ' '
    ensures ReadClause(Clause(num) + tail) == Some((num, tail))
  {
    var s := Clause(num) + tail;
    var p := |ClausePrefix|;
    assert s[..p] == ClausePrefix;
    var rest := IntToString(num) + tail;
    assert s[p..] == rest;
    NumeralEndOf(num, tail);
    var k := |IntToString(num)|;
    assert rest[..k] == IntToString(num);
    ParseIntToString(num);
    assert rest[k..] == tail;
  }

  /**
   * Reading a clause followed by nothing or by ` || `: the clause's number,
   * and the number of the text after the separator.
   */
  lemma ClauseRead(num: int, tail: string)
    requires tail == [] || (|tail| >= |Or| && tail[..|Or|] == Or)
    ensures ParseClauses(Clause(num) + tail) ==
      if tail == [] then Some([num])
      else match ParseClauses(tail[|Or|..])
        case None => None
        case Some(more) => Some([num] + more)
  {
    assert tail != [] ==> tail[0] == Or[0];
    ReadClauseOf(num, tail);
  }

  /** A condition lists exactly its numbers, in order: reading it back gives them. */
  lemma {:induction false} ConditionRoundTrip(nums: seq<int>)
    ensures ParseCondition(Condition(nums)) == Some(nums)
  {
    if |nums| == 1 {
      assert Condition(nums) == Clause(nums[0]);
      assert |Clause(nums[0])| >= |ClausePrefix|;
      ClauseRead(nums[0], []);
      assert Clause(nums[0]) + [] == Clause(nums[0]);
      assert [nums[0]] == nums;
    } else if |nums| > 1 {
      var rest := nums[1..];
      var c := Condition(rest);
      ConditionCons(nums);
      ConditionRoundTrip(rest);
      ClauseNonEmpty(rest);
      ParseNonEmpty(c);
      ClauseReadMore(nums[0], c, rest);
      ParseNonEmpty(Condition(nums));
      assert [nums[0]] + rest == nums;
    }
  }

  /** A non-empty text is read as clauses. */
  lemma ParseNonEmpty(s: string)
    requires s != []
    ensures ParseCondition(s) == ParseClauses(s)
  {
  }

  /** A clause, ` || `, then clauses: the clause's number before the others. */
  lemma ClauseReadMore(num: int, c: string, more: seq<int>)
    requires ParseClauses(c) == Some(more)
    ensures ParseClauses(Clause(num) + (Or + c)) == Some([num] + more)
  {
    var tail := Or + c;
    assert tail[..|Or|] == Or && tail[|Or|..] == c;
    ClauseRead(num, tail);
  }

  /** A condition of two or more numbers: the first clause, ` || `, the rest's condition. */
  lemma ConditionCons(nums: seq<int>)
    requires |nums| > 1
    ensures Condition(nums) == Clause(nums[0]) + (Or + Condition(nums[1..]))
  {
    assert Clauses(nums)[1..] == Clauses(nums[1..]);
  }

  /** A condition of at least one number is not empty. */
  lemma ClauseNonEmpty(nums: seq<int>)
    requires |nums| >= 1
    ensures Condition(nums) != []
  {
    var cs := Clauses(nums);
    if |cs| > 1 {
      assert Condition(nums)[..|cs[0]|] == cs[0];
    }
    assert |cs[0]| > 0;
  }

  /** Different number lists give different conditions. */
  lemma ConditionInjective(a: seq<int>, b: seq<int>)
    requires Condition(a) == Condition(b)
    ensures a == b
  {
    ConditionRoundTrip(a);
    ConditionRoundTrip(b);
  }

  // ---------------------------------------------------------------------------
  // Shader templates
  // ---------------------------------------------------------------------------

  /** The values a template's holes take. */
  datatype Hole = Texture | Coord | Survive | Birth

  datatype Env = Env(texture: string, coord: string, survive: string, birth: string)

  /** A piece of a template: fixed text, or a hole filled from the environment. */
  datatype Piece = Text(text: string) | Slot(hole: Hole)

  function Value(env: Env, h: Hole): string {
    match h
    case Texture => env.texture
    case Coord => env.coord
    case Survive => env.survive
    case Birth => env.birth
  }

  function PieceText(p: Piece, env: Env): string {
    match p
    case Text(t) => t
    case Slot(h) => Value(env, h)
  }

  /** A template literal: its pieces in order, each hole replaced by its value. */
  function Render(t: seq<Piece>, env: Env): string {
    if t == [] then "" else PieceText(t[0], env) + Render(t[1..], env)
  }

  /** Rendering two templates one after the other renders their concatenation. */
  lemma {:induction false} RenderAppend(a: seq<Piece>, b: seq<Piece>, env: Env)
    ensures Render(a + b, env) == Render(a, env) + Render(b, env)
  {
    if a != [] {
      assert (a + b)[1..] == a[1..] + b;
      RenderAppend(a[1..], b, env);
    } else {
      assert a + b == b;
    }
  }

  /**
   * Every use site of a hole holds its value: the text the `i`th piece
   * renders to starts where the pieces before it end.
   */
  lemma RenderAt(t: seq<Piece>, env: Env, i: nat)
    requires i < |t|
    ensures var at := |Render(t[..i], env)|;
      at + |PieceText(t[i], env)| <= |Render(t, env)| &&
      Render(t, env)[at..at + |PieceText(t[i], env)|] == PieceText(t[i], env)
  {
    assert t == t[..i] + ([t[i]] + t[i + 1..]);
    RenderAppend(t[..i], [t[i]] + t[i + 1..], env);
    RenderAppend([t[i]], t[i + 1..], env);
  }

  /** `s` holds `v` from position `at` on. */
  predicate OccursAt(s: string, at: nat, v: string) {
    at + |v| <= |s| && s[at..at + |v|] == v
  }

  /** A hole of a template holds its value at the place where the pieces before it end. */
  lemma SlotAt(t: seq<Piece>, env: Env, i: nat)
    requires i < |t| && t[i].Slot?
    ensures OccursAt(Render(t, env), |Render(t[..i], env)|, Value(env, t[i].hole))
  {
    RenderAt(t, env, i);
  }

  /** Every hole of a template holds its value at the place where the pieces before it end. */
  lemma RenderSlots(t: seq<Piece>, env: Env)
    ensures forall i | 0 <= i < |t| && t[i].Slot? ::
      OccursAt(Render(t, env), |Render(t[..i], env)|, Value(env, t[i].hole))
  {
    forall i | 0 <= i < |t| && t[i].Slot?
      ensures OccursAt(Render(t, env), |Render(t[..i], env)|, Value(env, t[i].hole))
    {
      SlotAt(t, env, i);
    }
  }

  /** A template that starts with a fixed text renders to a text that starts with it. */
  lemma RenderStart(t: seq<Piece>, env: Env, s: string)
    requires t != [] && t[0] == Text(s)
    ensures |s| <= |Render(t, env)| && Render(t, env)[..|s|] == s
  {
  }
}

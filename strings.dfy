/**
 * Text helpers shared by the shader generators: JavaScript-style number
 * rendering (`${n}` and `n.toString(16)`), `Array.prototype.join`,
 * `String.prototype.split('\n')` and the template-trimming helper `trimCode`
 * of complex-shader.js.
 */
module Strings {
  import Arith

  /** JavaScript's `\s` class, restricted to the ASCII white-space characters. */
  predicate IsSpace(c: char) {
    c == ' ' || c == '\t' || c == '\n' || c == '\r' || c == '\U{B}' || c == '\U{C}'
  }

  /** A line whose `trim()` is empty. */
  predicate Blank(l: string) {
    forall i :: 0 <= i < |l| ==> IsSpace(l[i])
  }

  predicate NoNewline(s: string) {
    forall i :: 0 <= i < |s| ==> s[i] != '\n'
  }

  // ---------------------------------------------------------------------------
  // Numbers
  // ---------------------------------------------------------------------------

  /** The character of one digit, `0`-`9` then lower-case `a`-`f`. */
  function DigitChar(d: nat): char
    requires d < 16
  {
    if d < 10 then ('0' as int + d) as char else ('a' as int + d - 10) as char
  }

  /** The value of one digit character, -1 for any other character. */
  function DigitValue(c: char): (d: int)
    ensures -1 <= d < 16
    ensures d >= 0 ==> DigitChar(d) == c
  {
    if '0' <= c <= '9' then c as int - '0' as int
    else if 'a' <= c <= 'f' then c as int - 'a' as int + 10
    else -1
  }

  /** `n.toString(base)` for a non-negative integer, lower-case digits. */
  function NatToString(n: nat, base: nat): (s: string)
    requires 2 <= base <= 16
    ensures |s| >= 1
    ensures forall i :: 0 <= i < |s| ==> 0 <= DigitValue(s[i]) < base
    decreases n
  {
    if n < base then
      DigitRoundTrip(n);
      [DigitChar(n)]
    else
      DivMod(n, base);
      DigitRoundTrip(n % base);
      NatToString(n / base, base) + [DigitChar(n % base)]
  }

  /** Reads a string of digits back as a number (the inverse of NatToString). */
  function ParseNat(s: string, base: nat): nat
    requires 2 <= base <= 16
    requires forall i :: 0 <= i < |s| ==> 0 <= DigitValue(s[i]) < base
    decreases |s|
  {
    if s == [] then 0
    else
      var init := s[..|s| - 1];
      assert forall i :: 0 <= i < |init| ==> init[i] == s[i];
      var high := ParseNat(init, base);
      Arith.MulNonneg(high, base);
      high * base + DigitValue(s[|s| - 1])
  }

  lemma DigitRoundTrip(d: nat)
    requires d < 16
    ensures DigitValue(DigitChar(d)) == d
  {
  }

  lemma DivMod(n: nat, base: nat)
    requires base >= 2
    ensures (n / base) * base + n % base == n && 0 <= n % base < base
    ensures n >= base ==> n / base < n
  {
  }

  lemma ParseNatSnoc(p: string, d: nat, base: nat)
    requires 2 <= base <= 16 && d < base
    requires forall i :: 0 <= i < |p| ==> 0 <= DigitValue(p[i]) < base
    ensures var s := p + [DigitChar(d)];
      (forall i :: 0 <= i < |s| ==> 0 <= DigitValue(s[i]) < base) &&
      ParseNat(s, base) == ParseNat(p, base) * base + d
  {
    var s := p + [DigitChar(d)];
    DigitRoundTrip(d);
    assert s[..|s| - 1] == p;
  }

  lemma {:induction false} ParseNatToString(n: nat, base: nat)
    requires 2 <= base <= 16
    ensures ParseNat(NatToString(n, base), base) == n
    decreases n
  {
    if n < base {
      DigitRoundTrip(n);
      var s := NatToString(n, base);
      assert s == [DigitChar(n)];
      assert s[..0] == [];
      assert ParseNat(s, base) == 0 * base + DigitValue(s[0]);
    } else {
      DivMod(n, base);
      var q := n / base;
      var p := NatToString(q, base);
      ParseNatToString(q, base);
      ParseNatSnoc(p, n % base, base);
    }
  }

  /** An optionally signed decimal numeral: a leading minus sign, then decimal digits. */
  predicate Numeral(s: string) {
    forall k :: 0 <= k < |s| ==> (k == 0 && s[k] == '-') || 0 <= DigitValue(s[k]) < 10
  }

  /** JavaScript's rendering of an integer-valued number, `${i}`. */
  function IntToString(i: int): (s: string)
    ensures |s| >= 1
    ensures forall k :: 0 <= k < |s| ==> s[k] == '-' || 0 <= DigitValue(s[k]) < 10
  {
    if i < 0 then "-" + NatToString(-i, 10) else NatToString(i, 10)
  }

  /** Reads an optionally signed decimal numeral. */
  function ParseInt(s: string): int
    requires Numeral(s)
  {
    if |s| > 0 && s[0] == '-' then 0 - ParseNat(s[1..], 10) else ParseNat(s, 10)
  }

  lemma ParseIntToString(i: int)
    ensures Numeral(IntToString(i)) && ParseInt(IntToString(i)) == i
  {
    var s := IntToString(i);
    var n: nat := if i < 0 then -i else i;
    var p := NatToString(n, 10);
    ParseNatToString(n, 10);
    if i < 0 {
      assert s == "-" + p;
      ParseNegative(p);
    } else {
      assert s == p;
      ParseUnsigned(p);
    }
    assert Numeral(s) && ParseInt(s) == i;
  }

  /** A numeral without a sign reads as its digits. */
  lemma ParseUnsigned(p: string)
    requires |p| >= 1
    requires forall k :: 0 <= k < |p| ==> 0 <= DigitValue(p[k]) < 10
    ensures Numeral(p) && ParseInt(p) == ParseNat(p, 10)
  {
    assert DigitValue(p[0]) >= 0;
  }

  /** A minus sign before a numeral negates it. */
  lemma ParseNegative(p: string)
    requires forall k :: 0 <= k < |p| ==> 0 <= DigitValue(p[k]) < 10
    ensures Numeral("-" + p) && ParseInt("-" + p) == 0 - ParseNat(p, 10)
  {
    var s := "-" + p;
    assert s[1..] == p;
  }

  /** `(2 ** len - 1).toString(16)`: the hexadecimal mask of `len` one bits. */
  function Mask(len: nat): string {
    NatToString(Pow2(len) - 1, 16)
  }

  function Pow2(n: nat): (r: nat)
    ensures r >= 1
  {
    if n == 0 then 1 else 2 * Pow2(n - 1)
  }

  // ---------------------------------------------------------------------------
  // Sequences of lines
  // ---------------------------------------------------------------------------

  /** `parts.join(sep)`. */
  function Join(parts: seq<string>, sep: string): string {
    if |parts| == 0 then ""
    else if |parts| == 1 then parts[0]
    else parts[0] + sep + Join(parts[1..], sep)
  }

  /** `'    '.repeat(level)`. */
  function Indent(level: nat): (s: string)
    ensures |s| == 4 * level
    ensures forall i :: 0 <= i < |s| ==> s[i] == ' '
  {
    if level == 0 then "" else "    " + Indent(level - 1)
  }

  /** A run of `k` spaces. */
  function Spaces(k: nat): (s: string)
    ensures |s| == k && Blank(s)
    ensures forall i :: 0 <= i < k ==> s[i] == ' '
  {
    if k == 0 then "" else " " + Spaces(k - 1)
  }

  /** The text of `ls`, every line indented by `level` steps and ended by a newline. */
  function Lines(level: nat, ls: seq<string>): string {
    if ls == [] then "" else Indent(level) + ls[0] + "\n" + Lines(level, ls[1..])
  }

  /** Lines are rendered one after another: adding a line appends its text. */
  lemma {:induction false} LinesSnoc(level: nat, ls: seq<string>, l: string)
    ensures Lines(level, ls + [l]) == Lines(level, ls) + Indent(level) + l + "\n"
  {
    if ls == [] {
      assert [l][1..] == [];
    } else {
      var head := Indent(level) + ls[0] + "\n";
      var tail := Indent(level) + l + "\n";
      assert (ls + [l])[1..] == ls[1..] + [l];
      assert Lines(level, ls + [l]) == head + Lines(level, ls[1..] + [l]);
      LinesSnoc(level, ls[1..], l);
      assert Lines(level, ls[1..] + [l]) == Lines(level, ls[1..]) + tail;
      assert Lines(level, ls) + Indent(level) + l + "\n" == Lines(level, ls) + tail;
    }
  }

  /** `code.split('\n')`. */
  function Split(s: string): (r: seq<string>)
    ensures |r| >= 1
    decreases |s|
  {
    if |s| == 0 then [""]
    else
      var rest := Split(s[1..]);
      if s[0] == '\n' then [""] + rest
      else [[s[0]] + rest[0]] + rest[1..]
  }

  /** `.filter(l => l.trim().length > 0)`. */
  function NonBlank(ls: seq<string>): (r: seq<string>)
    ensures forall i :: 0 <= i < |r| ==> !Blank(r[i])
    ensures |r| <= |ls|
  {
    if ls == [] then []
    else if Blank(ls[0]) then NonBlank(ls[1..])
    else [ls[0]] + NonBlank(ls[1..])
  }

  /** `l.search(/\S/)` on a line that is not blank. */
  function FirstNonSpace(l: string): (k: nat)
    requires !Blank(l)
    ensures k < |l| && !IsSpace(l[k])
    ensures forall i :: 0 <= i < k ==> IsSpace(l[i])
  {
    if !IsSpace(l[0]) then 0 else 1 + FirstNonSpace(l[1..])
  }

  /** `l.substring(k)`, which is empty when `k` is past the end. */
  function Drop(l: string, k: nat): string {
    if k <= |l| then l[k..] else ""
  }

  /** Every line of `ls` with its first `k` characters removed. */
  function Dedented(ls: seq<string>, k: nat): (r: seq<string>)
    ensures |r| == |ls|
    ensures forall i :: 0 <= i < |ls| ==> r[i] == Drop(ls[i], k)
  {
    seq(|ls|, i requires 0 <= i < |ls| => Drop(ls[i], k))
  }

  /**
   * `trimCode(code, level)`: the text of the lines of `code` that are not
   * blank, in order, each with as many leading characters removed as the
   * first of them has white space, indented by `level` steps and ended by a
   * newline. The source reads `lines[0]` unguarded, so at least one line
   * must not be blank.
   */
  function TrimCode(code: string, level: nat): (r: string)
    requires |NonBlank(Split(code))| > 0
    ensures var lines := NonBlank(Split(code));
      r == Lines(level, Dedented(lines, FirstNonSpace(lines[0])))
  {
    var lines := NonBlank(Split(code));
    var k := FirstNonSpace(lines[0]);
    var indented := seq(|lines|, i requires 0 <= i < |lines| => Indent(level) + Drop(lines[i], k));
    var d := Dedented(lines, k);
    JoinIndented(level, d);
    assert indented == seq(|d|, i requires 0 <= i < |d| => Indent(level) + d[i]);
    Join(indented, "\n") + "\n"
  }

  // ---------------------------------------------------------------------------
  // Lemmas on splitting and trimming
  // ---------------------------------------------------------------------------

  lemma {:induction false} SplitLine(x: string, t: string)
    requires NoNewline(x)
    ensures Split(x) == [x]
    ensures Split(x + "\n" + t) == [x] + Split(t)
    decreases |x|
  {
    if |x| == 0 {
      assert x + "\n" + t == "\n" + t;
      assert ("\n" + t)[1..] == t;
    } else {
      SplitLine(x[1..], t);
      assert (x + "\n" + t)[1..] == x[1..] + "\n" + t;
      assert [x[0]] + x[1..] == x;
    }
  }

  /** Splitting at newlines undoes joining newline-free lines with newlines. */
  lemma {:induction false} SplitJoin(xs: seq<string>)
    requires |xs| >= 1
    requires forall i :: 0 <= i < |xs| ==> NoNewline(xs[i])
    ensures Split(Join(xs, "\n")) == xs
    decreases |xs|
  {
    if |xs| == 1 {
      SplitLine(xs[0], "");
    } else {
      SplitJoin(xs[1..]);
      SplitLine(xs[0], Join(xs[1..], "\n"));
      assert [xs[0]] + xs[1..] == xs;
    }
  }

  lemma {:induction false} JoinIndented(level: nat, ls: seq<string>)
    requires |ls| >= 1
    ensures Join(seq(|ls|, i requires 0 <= i < |ls| => Indent(level) + ls[i]), "\n") + "\n" == Lines(level, ls)
    decreases |ls|
  {
    var m := seq(|ls|, i requires 0 <= i < |ls| => Indent(level) + ls[i]);
    if |ls| > 1 {
      JoinIndented(level, ls[1..]);
      assert m[1..] == seq(|ls[1..]|, i requires 0 <= i < |ls[1..]| => Indent(level) + ls[1..][i]);
    }
  }

  lemma {:induction false} NonBlankFrame(lead: seq<string>, mid: seq<string>, trail: seq<string>)
    requires forall i :: 0 <= i < |lead| ==> Blank(lead[i])
    requires forall i :: 0 <= i < |trail| ==> Blank(trail[i])
    requires forall i :: 0 <= i < |mid| ==> !Blank(mid[i])
    ensures NonBlank(lead + mid + trail) == mid
    decreases |lead| + |mid| + |trail|
  {
    if |lead| > 0 {
      assert (lead + mid + trail)[1..] == lead[1..] + mid + trail;
      NonBlankFrame(lead[1..], mid, trail);
    } else if |mid| > 0 {
      assert (lead + mid + trail)[1..] == [] + mid[1..] + trail;
      NonBlankFrame([], mid[1..], trail);
    } else if |trail| > 0 {
      assert (lead + mid + trail)[1..] == [] + [] + trail[1..];
      NonBlankFrame([], [], trail[1..]);
    }
  }

  lemma {:induction false} FirstNonSpaceAfterMargin(k: nat, l: string)
    requires |l| > 0 && !IsSpace(l[0])
    ensures !Blank(Spaces(k) + l) && FirstNonSpace(Spaces(k) + l) == k
    decreases k
  {
    assert (Spaces(k) + l)[k] == l[0];
    if k > 0 {
      assert (Spaces(k) + l)[1..] == Spaces(k - 1) + l;
      FirstNonSpaceAfterMargin(k - 1, l);
    }
  }

  /** The template lines of a generator: each line indented by the common margin `k`. */
  function Margined(k: nat, ls: seq<string>): seq<string> {
    seq(|ls|, i requires 0 <= i < |ls| => Spaces(k) + ls[i])
  }

  /**
   * trimCode strips a template's margin: a template whose lines all start with
   * the same `k` spaces (the first one then with a non-space character),
   * surrounded by blank lines, trims to exactly its lines re-indented by
   * `level` steps. This is the form in which the generators below are written.
   */
  lemma TrimMargin(lead: seq<string>, k: nat, ls: seq<string>, trail: seq<string>, level: nat)
    requires |ls| >= 1 && |ls[0]| > 0 && !IsSpace(ls[0][0])
    requires forall i :: 0 <= i < |ls| ==> NoNewline(ls[i]) && !Blank(ls[i])
    requires forall i :: 0 <= i < |lead| ==> NoNewline(lead[i]) && Blank(lead[i])
    requires forall i :: 0 <= i < |trail| ==> NoNewline(trail[i]) && Blank(trail[i])
    ensures var code := Join(lead + Margined(k, ls) + trail, "\n");
      |NonBlank(Split(code))| > 0 && TrimCode(code, level) == Lines(level, ls)
  {
    var m := Margined(k, ls);
    var xs := lead + m + trail;
    forall i | 0 <= i < |m| ensures NoNewline(m[i]) && !Blank(m[i]) {
      assert m[i] == Spaces(k) + ls[i];
      assert m[i][k..] == ls[i];
      assert m[i][k + FirstNonSpace(ls[i])] == ls[i][FirstNonSpace(ls[i])];
    }
    forall i | 0 <= i < |xs| ensures NoNewline(xs[i]) {
      if i < |lead| { assert xs[i] == lead[i]; }
      else if i < |lead| + |m| { assert xs[i] == m[i - |lead|]; }
      else { assert xs[i] == trail[i - |lead| - |m|]; }
    }
    SplitJoin(xs);
    NonBlankFrame(lead, m, trail);
    FirstNonSpaceAfterMargin(k, ls[0]);
    var code := Join(xs, "\n");
    var d := seq(|m|, i requires 0 <= i < |m| => Indent(level) + Drop(m[i], k));
    var e := seq(|ls|, i requires 0 <= i < |ls| => Indent(level) + ls[i]);
    assert d == e by {
      forall i | 0 <= i < |m| ensures d[i] == e[i] {
        assert m[i] == Spaces(k) + ls[i];
        assert m[i][k..] == ls[i];
      }
    }
    JoinIndented(level, ls);
  }
}

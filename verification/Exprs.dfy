/** Kconfig dependency expressions and their three-valued meaning
    (scripts/config/expr.h, scripts/config/expr.c). */
module Exprs {
  import opened Numbers


  // ----- tristate values: n < m < y -----

  type Tri = x: int | 0 <= x <= 2

  const NO: Tri := 0
  const MOD: Tri := 1
  const YES: Tri := 2

  function Max(a: Tri, b: Tri): Tri { if a > b then a else b }

  function Min(a: Tri, b: Tri): Tri { if a < b then a else b }

  function Flip(a: Tri): Tri { 2 - a }

  function TriString(t: Tri): string {
    if t == NO then "n" else if t == MOD then "m" else "y"
  }

  // ----- symbols -----

  datatype SymType = Unknown | Boolean | Tristate | Int | Hex | Str

  /** Symbols are compared by address in C; a constant is unique by its text and a
      configuration symbol by its name, so values stand for addresses. */
  datatype Symbol =
    | Const(name: string)
    | Config(name: string, cty: SymType)
    | Choice(id: nat, chty: SymType)
  {
    function Ty(): SymType {
      match this
      case Const(_) => Unknown
      case Config(_, t) => t
      case Choice(_, t) => t
    }

    predicate BoolLike() { Ty() == Boolean || Ty() == Tristate }
  }

  const SYM_YES := Const("y")
  const SYM_MOD := Const("m")
  const SYM_NO := Const("n")

  predicate YesOrNo(s: Symbol) { s == SYM_YES || s == SYM_NO }

  predicate Ymn(s: Symbol) { YesOrNo(s) || s == SYM_MOD }

  // ----- expressions -----

  datatype Rel = Equal | Unequal | Lth | Leq | Gth | Geq

  datatype Op = AndOp | OrOp

  datatype Expr =
    | Sym(s: Symbol)
    | Not(e: Expr)
    | Bin(op: Op, l: Expr, r: Expr)
    | Cmp(rel: Rel, a: Symbol, b: Symbol)

  datatype Option<+T> = None | Some(value: T)

  /** A null `struct expr *` stands for y. */
  type ExprOrNull = Option<Expr>

  predicate IsBin(e: Expr, op: Op) { e.Bin? && e.op == op }

  function Size(e: Expr): nat {
    match e
    case Sym(_) => 1
    case Cmp(_, _, _) => 1
    case Not(x) => 1 + Size(x)
    case Bin(_, l, r) => 1 + Size(l) + Size(r)
  }

  function Join(op: Op, a: Tri, b: Tri): Tri {
    if op == AndOp then Min(a, b) else Max(a, b)
  }

  /** The operand that `op` absorbs: y for &&, n for ||. */
  function UnitSym(op: Op): Symbol { if op == AndOp then SYM_YES else SYM_NO }

  function UnitTri(op: Op): Tri { if op == AndOp then YES else NO }

  // ----- Join is associative and commutative, with a unit -----

  lemma JoinTwice(op: Op, a: Tri, b: Tri, c: Tri, d: Tri)
    ensures Join(op, Join(op, a, c), Join(op, b, d)) == Join(op, Join(op, a, b), Join(op, c, d))
  {
    if op == AndOp { } else { }
  }

  lemma JoinAgain(op: Op, a: Tri, c: Tri, d: Tri)
    ensures Join(op, Join(op, a, d), c) == Join(op, a, Join(op, c, d))
    ensures Join(op, c, Join(op, a, d)) == Join(op, a, Join(op, c, d))
  {
    if op == AndOp { } else { }
  }

  lemma JoinComm(op: Op, a: Tri, b: Tri)
    ensures Join(op, a, b) == Join(op, b, a)
  {
  }

  lemma JoinUnit(op: Op, a: Tri)
    ensures Join(op, a, UnitTri(op)) == a && Join(op, UnitTri(op), a) == a
  {
  }

  // ----- valuations -----

  datatype Valuation = Valuation(tri: Symbol -> Tri, str: Symbol -> string)

  /** What symbol evaluation guarantees of the values it stores: the fixed values of
      y, m and n, bool symbols never at m, and a string form that agrees with the
      tristate. Symbols without a type read as their own text. */
  ghost predicate Wf(v: Valuation) {
    && v.tri(SYM_YES) == YES && v.tri(SYM_MOD) == MOD && v.tri(SYM_NO) == NO
    && (forall s: Symbol :: s.Ty() == Boolean ==> v.tri(s) != MOD)
    && (forall s: Symbol :: s.BoolLike() ==> v.str(s) == TriString(v.tri(s)))
    && (forall s: Symbol :: s.Const? ==> v.str(s) == s.name)
  }

  // ----- comparisons: strcmp and expr_parse_string -----

  /** The sign of strcmp. */
  function StrCmp(a: string, b: string): int {
    if a == [] then (if b == [] then 0 else -1)
    else if b == [] then 1
    else if a[0] < b[0] then -1
    else if b[0] < a[0] then 1
    else StrCmp(a[1..], b[1..])
  }

  lemma StrCmpZero(a: string, b: string)
    ensures StrCmp(a, b) == 0 <==> a == b
  {
    if a != [] && b != [] {
      StrCmpZero(a[1..], b[1..]);
      assert a == [a[0]] + a[1..] && b == [b[0]] + b[1..];
    }
  }

  predicate IsSpace(c: char) { c == ' ' || '\t' <= c <= '\r' }

  function DigitVal(c: char): nat {
    if '0' <= c <= '9' then c as int - '0' as int
    else if 'a' <= c <= 'z' then c as int - 'a' as int + 10
    else if 'A' <= c <= 'Z' then c as int - 'A' as int + 10
    else 36
  }

  predicate AllDigits(s: string, base: nat) {
    forall i :: 0 <= i < |s| ==> DigitVal(s[i]) < base
  }

  function DigitsVal(s: string, base: nat): nat {
    if s == [] then 0 else DigitsVal(s[..|s| - 1], base) * base + DigitVal(s[|s| - 1])
  }

  function SkipSpace(s: string): string {
    if s != [] && IsSpace(s[0]) then SkipSpace(s[1..]) else s
  }

  /** `strtoll`/`strtoull` on a string that must be consumed to its end:
      the sign and the magnitude, or nothing. */
  function ParseNumber(s: string, base: nat): Option<(bool, nat)> {
    var t := SkipSpace(s);
    var neg := t != [] && t[0] == '-';
    var u := if t != [] && (t[0] == '-' || t[0] == '+') then t[1..] else t;
    var hex := (base == 0 || base == 16) && |u| > 2 && u[0] == '0'
               && (u[1] == 'x' || u[1] == 'X') && DigitVal(u[2]) < 16;
    var w := if hex then u[2..] else u;
    var radix := if hex then 16 else if base != 0 then base
                 else if u != [] && u[0] == '0' then 8 else 10;
    if w != [] && AllDigits(w, radix) then Some((neg, DigitsVal(w, radix))) else None
  }

  datatype Parsed = PString | PSigned(s: int) | PUnsigned(u: nat)

  function ParseString(str: string, ty: SymType): Parsed {
    match ty
    case Boolean => PSigned(TriNumber(str))
    case Tristate => PSigned(TriNumber(str))
    case Hex =>
      (match ParseNumber(str, 16)
       case Some((neg, n)) =>
         if n >= TWO_TO_64 then PString
         else PUnsigned(if neg then (TWO_TO_64 - n) % TWO_TO_64 else n)
       case None => PString)
    case Int => SignedOrString(ParseNumber(str, 10))
    case Str => SignedOrString(ParseNumber(str, 0))
    case Unknown => SignedOrString(ParseNumber(str, 0))
  }

  function SignedOrString(p: Option<(bool, nat)>): Parsed {
    match p
    case Some((neg, n)) =>
      if neg && n <= TWO_TO_63 then PSigned(0 - n)
      else if !neg && n < TWO_TO_63 then PSigned(n)
      else PString
    case None => PString
  }

  function TriNumber(str: string): int {
    if str == "n" then 0 else if str == "m" then 1 else if str == "y" then 2 else -1
  }

  function Sign(x: int, y: int): int { if x > y then 1 else if x < y then -1 else 0 }

  /** The bits of either member of the union, read as unsigned. */
  function Bits(p: Parsed): int {
    match p
    case PString => 0
    case PSigned(s) => if s < 0 then s + TWO_TO_64 else s
    case PUnsigned(u) => u
  }

  /** The variable `res` of expr_calc_value. */
  function CompareStrings(lty: SymType, ls: string, rty: SymType, rs: string): int {
    var k1 := if lty == Str && rty == Str then PString else ParseString(ls, lty);
    var k2 := if lty == Str && rty == Str then PString else ParseString(rs, rty);
    match (k1, k2)
    case (PString, _) => StrCmp(ls, rs)
    case (_, PString) => StrCmp(ls, rs)
    case (PSigned(x), PSigned(y)) => Sign(x, y)
    case (_, _) => Sign(Bits(k1), Bits(k2))
  }

  function CompareSyms(a: Symbol, b: Symbol, v: Valuation): int {
    CompareStrings(a.Ty(), v.str(a), b.Ty(), v.str(b))
  }

  predicate Holds(rel: Rel, res: int) {
    match rel
    case Equal => res == 0
    case Unequal => res != 0
    case Lth => res < 0
    case Leq => res <= 0
    case Gth => res > 0
    case Geq => res >= 0
  }

  /** expr_calc_value, with the symbol values taken from `v`. */
  function Eval(e: Expr, v: Valuation): Tri {
    match e
    case Sym(s) => v.tri(s)
    case Not(x) => Flip(Eval(x, v))
    case Bin(op, l, r) => Join(op, Eval(l, v), Eval(r, v))
    case Cmp(rel, a, b) => if Holds(rel, CompareSyms(a, b, v)) then YES else NO
  }

  function EvalOrYes(e: ExprOrNull, v: Valuation): Tri {
    match e
    case None => YES
    case Some(x) => Eval(x, v)
  }

  // ----- normal form -----

  predicate IsEqTest(e: Expr) { e.Cmp? && (e.rel == Equal || e.rel == Unequal) }

  /** Negation only over a symbol other than y, m and n, and no bool tested against those. */
  predicate Normal(e: Expr) {
    match e
    case Sym(_) => true
    case Not(x) => x.Sym? && !Ymn(x.s)
    case Bin(_, l, r) => Normal(l) && Normal(r)
    case Cmp(_, a, b) => !(IsEqTest(e) && a.Ty() == Boolean && Ymn(b))
  }

  // ----- comparisons of a bool or tristate with y, m and n -----

  /** Whether a tristate at `t` compares equal to the constant `c`. */
  predicate TriEquals(t: Tri, c: string) {
    CompareStrings(Tristate, TriString(t), Unknown, c) == 0
  }

  /** Comparing with y, m or n compares tristates: their texts are no numbers. */
  lemma YmnCompare(a: Symbol, c: Symbol, v: Valuation)
    requires Wf(v) && a.BoolLike() && Ymn(c)
    ensures CompareSyms(a, c, v) == 0 <==> v.tri(a) == v.tri(c)
  {
    assert v.str(c) == c.name && ParseString(c.name, Unknown) == PString by {
      assert SkipSpace(c.name) == c.name;
      assert DigitVal(c.name[0]) >= 10;
    }
    assert v.str(a) == TriString(v.tri(a));
    StrCmpZero(v.str(a), c.name);
  }

  lemma ConstCompare(a: Symbol, c: Symbol, v: Valuation)
    requires Wf(v) && a.Ty() == Tristate && c.Const?
    ensures CompareSyms(a, c, v) == 0 <==> TriEquals(v.tri(a), c.name)
  {
  }

  lemma YmnTriEquals(t: Tri, u: Tri)
    ensures TriEquals(t, TriString(u)) <==> t == u
  {
    var c := TriString(u);
    assert ParseString(c, Unknown) == PString by {
      assert SkipSpace(c) == c;
      assert DigitVal(c[0]) >= 10;
    }
    StrCmpZero(TriString(t), c);
  }
}

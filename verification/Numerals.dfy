/** Numbers written out in a base, for the laws about texts that strtoll, strtoul and
    sym_string_valid read. */
module Numerals {
  import opened Numbers
  import opened Exprs

  /** A digit below 16; letters in the given case. */
  function DigitChar(d: nat, upper: bool): (c: char)
    requires d < 16
    ensures DigitVal(c) == d
  {
    if d < 10 then '0' + d as char
    else (if upper then 'A' else 'a') + (d - 10) as char
  }

  /** The shortest text of `n`. */
  function Numeral(n: nat, base: nat, upper: bool): (s: string)
    requires 2 <= base <= 16
    ensures s != []
  {
    if n < base then [DigitChar(n, upper)]
    else
      Divides(n, base);
      Numeral(n / base, base, upper) + [DigitChar(n % base, upper)]
  }

  lemma Divides(n: nat, base: nat)
    requires 2 <= base <= n
    ensures 0 < n / base < n && n == (n / base) * base + n % base
  {
  }

  function Decimal(n: int): string {
    if n < 0 then "-" + Numeral(-n, 10, false) else Numeral(n, 10, false)
  }

  /** The text has the value it was made from, and begins with 0 only if it is "0". */
  lemma {:induction false} NumeralValue(n: nat, base: nat, upper: bool)
    requires 2 <= base <= 16
    ensures var s := Numeral(n, base, upper);
            AllDigits(s, base) && DigitsVal(s, base) == n && (s[0] == '0' ==> n == 0)
    ensures n == 0 ==> Numeral(n, base, upper) == "0"
  {
    if n < base {
      OneDigit(n, base, upper);
    } else {
      Divides(n, base);
      NumeralValue(n / base, base, upper);
      var t := Numeral(n / base, base, upper);
      hide Numeral, DigitChar;
      AddDigit(t, DigitChar(n % base, upper), base);
    }
  }

  lemma OneDigit(n: nat, base: nat, upper: bool)
    requires n < base <= 16
    ensures var s := [DigitChar(n, upper)];
            AllDigits(s, base) && DigitsVal(s, base) == n && (s[0] == '0' ==> n == 0) && (n == 0 ==> s == "0")
  {
    var s := [DigitChar(n, upper)];
    assert s[..0] == [];
    assert DigitsVal(s, base) == DigitsVal(s[..0], base) * base + DigitVal(s[0]);
  }

  lemma AddDigit(t: string, c: char, base: nat)
    requires t != [] && AllDigits(t, base) && DigitVal(c) < base
    ensures AllDigits(t + [c], base) && DigitsVal(t + [c], base) == DigitsVal(t, base) * base + DigitVal(c)
    ensures (t + [c])[0] == t[0]
  {
    hide DigitVal;
    assert (t + [c])[..|t|] == t;
  }

  lemma DecimalDigit(c: char)
    requires DigitVal(c) < 10
    ensures '0' <= c <= '9' && c == DigitChar(DigitVal(c), false)
  {
  }

  /** Every decimal text without a needless leading zero is the text of its value. */
  lemma {:induction false} NumeralOf(s: string)
    requires s != [] && AllDigits(s, 10) && (s[0] == '0' ==> |s| == 1)
    ensures s == Numeral(DigitsVal(s, 10), 10, false)
    ensures s[0] != '0' ==> DigitsVal(s, 10) > 0
  {
    var front, last := s[..|s| - 1], s[|s| - 1];
    DecimalDigit(last);
    if front == [] {
      assert s == [last];
    } else {
      assert forall i :: 0 <= i < |front| ==> front[i] == s[i];
      NumeralOf(front);
      var v, d := DigitsVal(front, 10), DigitVal(last);
      assert (v * 10 + d) / 10 == v && (v * 10 + d) % 10 == d;
      assert s == front + [last];
    }
  }

  lemma NoSpace(s: string)
    requires s != [] && DigitVal(s[0]) < 36
    ensures SkipSpace(s) == s && s[0] != '-' && s[0] != '+'
  {
  }

  /** Decimal digits after an optional minus, whether the base is given or guessed. */
  lemma DigitsParse(t: string, neg: bool, base: nat)
    requires t != [] && AllDigits(t, 10) && (t[0] == '0' ==> t == "0") && (base == 10 || base == 0)
    ensures ParseNumber(if neg then "-" + t else t, base) == Some((neg, DigitsVal(t, 10)))
  {
    DecimalDigit(t[0]);
    OneDigit(0, 8, false);
    OneDigit(0, 10, false);
    var s := if neg then "-" + t else t;
    assert neg ==> s[1..] == t;
    hide DigitsVal, DigitVal;
    assert SkipSpace(s) == s;
    hide SkipSpace;
  }

  /** strtoll reads every such text. */
  lemma DecimalParses(n: int, base: nat)
    requires base == 10 || base == 0
    ensures ParseNumber(Decimal(n), base) == Some((n < 0, if n < 0 then -n else n))
  {
    hide Numeral, DigitsVal, ParseNumber, AllDigits;
    var m: nat := if n < 0 then -n else n;
    NumeralValue(m, 10, false);
    DigitsParse(Numeral(m, 10, false), n < 0, base);
  }

  lemma HexDigitsParse(t: string)
    requires t != [] && AllDigits(t, 16)
    ensures ParseNumber(t, 16) == Some((false, DigitsVal(t, 16)))
  {
    hide DigitsVal, SkipSpace;
    assert DigitVal(t[0]) < 16;
    NoSpace(t);
    assert |t| > 1 ==> DigitVal(t[1]) < 16;
  }

  lemma HexMarkedParse(mark: string, t: string)
    requires (mark == "0x" || mark == "0X") && t != [] && AllDigits(t, 16)
    ensures ParseNumber(mark + t, 16) == Some((false, DigitsVal(t, 16)))
  {
    hide DigitsVal, SkipSpace, AllDigits;
    var s := mark + t;
    assert DigitVal(t[0]) < 16 by { HexDigits(t); }
    assert s[0] == '0' && s[1] == mark[1] && s[2] == t[0] && s[2..] == t;
    NoSpace(s);
  }

  lemma HexDigits(t: string)
    requires t != [] && AllDigits(t, 16)
    ensures DigitVal(t[0]) < 16
  {
  }

  /** strtoull reads every hexadecimal text, with and without its prefix. */
  lemma HexParses(n: nat, upper: bool, mark: string)
    requires mark in {"", "0x", "0X"}
    ensures ParseNumber(mark + Numeral(n, 16, upper), 16) == Some((false, n))
  {
    hide Numeral, DigitsVal, ParseNumber, AllDigits;
    var t := Numeral(n, 16, upper);
    NumeralValue(n, 16, upper);
    if mark == "" {
      assert mark + t == t;
      HexDigitsParse(t);
    } else {
      HexMarkedParse(mark, t);
    }
  }

  // ----- what a comparison in a dependency means -----

  predicate Fits(x: int) { 0 - TWO_TO_63 <= x < TWO_TO_63 }

  /** The relation a dependency writes, on numbers. */
  predicate Relates(rel: Rel, x: int, y: int) {
    match rel
    case Equal => x == y
    case Unequal => x != y
    case Lth => x < y
    case Leq => x <= y
    case Gth => x > y
    case Geq => x >= y
  }

  /** An int symbol or a constant that holds the decimal text of a number. */
  predicate HoldsNumber(s: Symbol, x: int, v: Valuation) {
    (s.Ty() == Int || s.Ty() == Unknown) && v.str(s) == Decimal(x)
  }

  lemma ReadsNumber(s: Symbol, x: int, v: Valuation)
    requires HoldsNumber(s, x, v)
    ensures ParseString(v.str(s), s.Ty()) == if Fits(x) then PSigned(x) else PString
  {
    DecimalParses(x, if s.Ty() == Int then 10 else 0);
    hide ParseNumber, Decimal;
  }

  /** Decimal texts are compared as numbers if both fit into 64 bits, and as texts otherwise. */
  lemma NumbersCompare(rel: Rel, a: Symbol, b: Symbol, x: int, y: int, v: Valuation)
    requires HoldsNumber(a, x, v) && HoldsNumber(b, y, v)
    ensures Fits(x) && Fits(y) ==> Eval(Cmp(rel, a, b), v) == if Relates(rel, x, y) then YES else NO
    ensures !(Fits(x) && Fits(y)) ==>
              Eval(Cmp(rel, a, b), v) == if Relates(rel, StrCmp(v.str(a), v.str(b)), 0) then YES else NO
  {
    ReadsNumber(a, x, v);
    ReadsNumber(b, y, v);
    hide ParseString, Decimal, StrCmp;
  }

  /** Bools and tristates are compared as n < m < y. */
  lemma TristatesCompare(rel: Rel, a: Symbol, b: Symbol, v: Valuation)
    requires Wf(v) && a.BoolLike() && b.BoolLike()
    ensures Eval(Cmp(rel, a, b), v) == if Relates(rel, v.tri(a), v.tri(b)) then YES else NO
  {
    assert v.str(a) == TriString(v.tri(a)) && v.str(b) == TriString(v.tri(b));
  }

  /** A hex symbol that holds the hexadecimal text of a number, in any of its forms. */
  predicate HoldsHex(s: Symbol, x: nat, upper: bool, mark: string, v: Valuation) {
    mark in {"", "0x", "0X"} && s.Ty() == Hex && v.str(s) == mark + Numeral(x, 16, upper)
  }

  lemma ReadsHex(s: Symbol, x: nat, upper: bool, mark: string, v: Valuation)
    requires HoldsHex(s, x, upper, mark, v) && x < TWO_TO_64
    ensures s.Ty() == Hex && ParseString(v.str(s), Hex) == PUnsigned(x)
  {
    hide ParseNumber, Numeral;
    HexParses(x, upper, mark);
  }

  /** Hexadecimal texts are compared without a sign. */
  lemma HexCompare(rel: Rel, a: Symbol, b: Symbol, x: nat, y: nat, up: bool, up': bool, mark: string, mark': string,
                   v: Valuation)
    requires HoldsHex(a, x, up, mark, v) && HoldsHex(b, y, up', mark', v) && x < TWO_TO_64 && y < TWO_TO_64
    ensures Eval(Cmp(rel, a, b), v) == if Relates(rel, x, y) then YES else NO
  {
    hide HoldsHex, ParseString, StrCmp;
    ReadsHex(a, x, up, mark, v);
    ReadsHex(b, y, up', mark', v);
  }

  /** `a` comes first in the order of the characters. */
  ghost predicate Before(a: string, b: string) {
    exists i :: 0 <= i <= |a| && i < |b| && a[..i] == b[..i] && (i == |a| || a[i] < b[i])
  }

  lemma {:induction false} StrCmpOrder(a: string, b: string)
    ensures StrCmp(a, b) < 0 <==> Before(a, b)
    ensures StrCmp(a, b) > 0 <==> Before(b, a)
  {
    if a != [] && b != [] && a[0] == b[0] {
      StrCmpOrder(a[1..], b[1..]);
      BeforeTail(a, b);
      BeforeTail(b, a);
    } else {
      BeforeHead(a, b);
      BeforeHead(b, a);
    }
  }

  lemma BeforeTail(a: string, b: string)
    requires a != [] && b != [] && a[0] == b[0]
    ensures Before(a, b) <==> Before(a[1..], b[1..])
  {
    if Before(a, b) {
      var i :| 0 <= i <= |a| && i < |b| && a[..i] == b[..i] && (i == |a| || a[i] < b[i]);
      BeforeShorter(a, b, i);
    }
    if Before(a[1..], b[1..]) {
      var i :| 0 <= i <= |a[1..]| && i < |b[1..]| && a[1..][..i] == b[1..][..i]
               && (i == |a[1..]| || a[1..][i] < b[1..][i]);
      BeforeLonger(a, b, i);
    }
  }

  lemma BeforeShorter(a: string, b: string, i: nat)
    requires a != [] && b != [] && a[0] == b[0]
    requires i <= |a| && i < |b| && a[..i] == b[..i] && (i == |a| || a[i] < b[i])
    ensures Before(a[1..], b[1..])
  {
    assert i > 0;
    assert a[1..][..i - 1] == a[..i][1..] && b[1..][..i - 1] == b[..i][1..];
  }

  lemma BeforeLonger(a: string, b: string, i: nat)
    requires a != [] && b != [] && a[0] == b[0]
    requires i < |a| && i < |b| - 1 && a[1..][..i] == b[1..][..i] && (i == |a| - 1 || a[i + 1] < b[i + 1])
    ensures Before(a, b)
  {
    assert a[..i + 1] == [a[0]] + a[1..][..i] && b[..i + 1] == [b[0]] + b[1..][..i];
  }

  lemma BeforeHead(a: string, b: string)
    requires a == [] || b == [] || a[0] != b[0]
    ensures Before(a, b) <==> b != [] && (a == [] || a[0] < b[0])
  {
    if b != [] && (a == [] || a[0] < b[0]) {
      assert a[..0] == b[..0];
    }
    if Before(a, b) {
      var i :| 0 <= i <= |a| && i < |b| && a[..i] == b[..i] && (i == |a| || a[i] < b[i]);
      if i > 0 { assert a[..i][0] == b[..i][0]; }
    }
  }

  /** Two strings are compared by that order, digits or not. */
  lemma TextsCompare(a: Symbol, b: Symbol, v: Valuation)
    requires a.Ty() == Str && b.Ty() == Str
    ensures Eval(Cmp(Lth, a, b), v) == (if Before(v.str(a), v.str(b)) then YES else NO)
    ensures Eval(Cmp(Gth, a, b), v) == (if Before(v.str(b), v.str(a)) then YES else NO)
    ensures Eval(Cmp(Equal, a, b), v) == (if v.str(a) == v.str(b) then YES else NO)
  {
    StrCmpOrder(v.str(a), v.str(b));
    StrCmpZero(v.str(a), v.str(b));
    hide StrCmp, Before;
  }
}

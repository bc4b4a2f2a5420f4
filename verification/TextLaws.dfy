/** Which value texts a configuration file can hold, without reference to how they are
    checked (scripts/config/symbol.c, lines 537-578; scripts/config/confdata.c, lines 230-289
    and 436-503). */
module TextLaws {
  import opened Exprs
  import opened Numerals
  import opened ConfLines

  lemma DigitIsVal(c: char)
    ensures Digit(c) <==> DigitVal(c) < 10
    ensures HexDigit(c) <==> DigitVal(c) < 16
  {
  }

  lemma DigitsAre(s: string)
    ensures AllDecimal(s) <==> AllDigits(s, 10)
    ensures AllHex(s) <==> AllDigits(s, 16)
  {
    forall i | 0 <= i < |s|
      ensures (Digit(s[i]) <==> DigitVal(s[i]) < 10) && (HexDigit(s[i]) <==> DigitVal(s[i]) < 16)
    {
      DigitIsVal(s[i]);
    }
    hide DigitVal, Digit, HexDigit;
  }

  // ----- int -----

  /** An int text is read iff it is the decimal text of some number, or "-0". */
  lemma IntTexts(s: string)
    ensures ParseValue(Int, s).Some? <==> s == "-0" || exists n :: s == Decimal(n)
    ensures ParseValue(Int, s).Some? ==> ParseValue(Int, s) == Some(TextVal(s))
  {
    hide Decimal;
    if ParseValue(Int, s).Some? {
      IntTextIs(s);
    }
    if s == "-0" {
      assert s[1..] == "0";
    }
    if exists n :: s == Decimal(n) {
      var n :| s == Decimal(n);
      DecimalIsText(n);
    }
  }

  lemma DecimalIsText(n: int)
    ensures ParseValue(Int, Decimal(n)) == Some(TextVal(Decimal(n)))
  {
    var m: nat := if n < 0 then -n else n;
    var t := Numeral(m, 10, false);
    NumeralValue(m, 10, false);
    DigitsAre(t);
    hide Numeral, AllDigits, DigitsVal;
    var s := Decimal(n);
    if n < 0 {
      assert s[1..] == t;
    } else {
      assert Digit(t[0]);
    }
  }

  lemma IntTextIs(s: string)
    requires ParseValue(Int, s).Some?
    ensures s == "-0" || exists n :: s == Decimal(n)
  {
    var t := if "-" <= s then s[1..] else s;
    DigitsAre(t);
    if "-" <= s {
      assert s == "-" + t;
      if t[0] == '0' {
        assert t == "0";
      } else {
        NegativeText(t);
      }
    } else {
      NumeralOf(t);
      assert s == Decimal(DigitsVal(t, 10));
    }
  }

  lemma NegativeText(t: string)
    requires t != [] && AllDigits(t, 10) && t[0] != '0'
    ensures "-" + t == Decimal(0 - DigitsVal(t, 10))
  {
    hide Numeral, DigitsVal, AllDigits;
    NumeralOf(t);
  }

  /** The line written for an int with the text of any number is read back. */
  lemma IntReadsBack(prefix: string, table: map<string, SymType>, name: string, n: int)
    requires GoodName(name) && name in table && table[name] == Int && GoodPrefix(prefix, name)
    ensures var x := TextVal(Decimal(n));
            ReadLine(prefix, table, WriteSymbol(prefix, name, Int, x)) == Some((name, x))
  {
    hide ReadLine, Decimal;
    DecimalIsText(n);
    NumberReadsBack(prefix, table, name, Decimal(n));
  }

  lemma NumberReadsBack(prefix: string, table: map<string, SymType>, name: string, s: string)
    requires GoodName(name) && name in table && (table[name] == Int || table[name] == Hex) && GoodPrefix(prefix, name)
    requires ParseValue(table[name], s) == Some(TextVal(s))
    ensures ReadLine(prefix, table, WriteSymbol(prefix, name, table[name], TextVal(s))) == Some((name, TextVal(s)))
  {
    hide ReadLine;
    AdmittedFits(table[name], s);
    WrittenLineReadsBack(prefix, table, name, TextVal(s));
  }

  // ----- hex -----

  /** A hex text is read iff it is a non-empty row of hexadecimal digits in either case, after
      0x, 0X or nothing. */
  lemma HexTexts(s: string)
    ensures ParseValue(Hex, s).Some? <==>
              exists mark, t :: mark in {"", "0x", "0X"} && s == mark + t && t != [] && AllDigits(t, 16)
    ensures ParseValue(Hex, s).Some? ==> ParseValue(Hex, s) == Some(TextVal(s))
  {
    if ParseValue(Hex, s).Some? {
      var mark := if "0x" <= s then "0x" else if "0X" <= s then "0X" else "";
      var t := s[|mark|..];
      DigitsAre(t);
      assert s == mark + t && mark in {"", "0x", "0X"};
    }
    forall mark, t | mark in {"", "0x", "0X"} && s == mark + t && t != [] && AllDigits(t, 16)
      ensures ParseValue(Hex, s).Some?
    {
      HexIsText(mark, t);
    }
  }

  lemma HexIsText(mark: string, t: string)
    requires mark in {"", "0x", "0X"} && t != [] && AllDigits(t, 16)
    ensures ParseValue(Hex, mark + t) == Some(TextVal(mark + t))
  {
    DigitsAre(t);
    hide AllDigits, DigitVal;
    var s := mark + t;
    if mark == "" {
      assert s == t;
      assert |t| > 1 ==> HexDigit(t[1]);
      assert !("0x" <= t) && !("0X" <= t);
    } else {
      assert s[2..] == t && mark <= s;
    }
  }

  /** In particular the hexadecimal text of every number, in any of its forms. */
  lemma HexReadsBack(prefix: string, table: map<string, SymType>, name: string, n: nat, upper: bool, mark: string)
    requires GoodName(name) && name in table && table[name] == Hex && GoodPrefix(prefix, name)
    requires mark in {"", "0x", "0X"}
    ensures var x := TextVal(mark + Numeral(n, 16, upper));
            ReadLine(prefix, table, WriteSymbol(prefix, name, Hex, x)) == Some((name, x))
  {
    hide ReadLine, Numeral, AllDigits;
    NumeralValue(n, 16, upper);
    HexIsText(mark, Numeral(n, 16, upper));
    NumberReadsBack(prefix, table, name, mark + Numeral(n, 16, upper));
  }

  // ----- bool and tristate, and line ends -----

  /** y, m and n are read as themselves; a bool does not read m. */
  lemma TriReads(prefix: string, table: map<string, SymType>, name: string, t: Tri)
    requires GoodName(name) && name in table && GoodPrefix(prefix, name)
    requires table[name] == Boolean || table[name] == Tristate
    ensures ReadLine(prefix, table, prefix + name + "=" + TriString(t) + "\n")
            == if table[name] == Boolean && t == MOD then None else Some((name, TriVal(t)))
  {
    hide ReadLine;
    var text := TriString(t);
    AssignmentReadsBack(prefix, table, name, text, ParseValue(table[name], text));
  }

  /** A line may end in a newline, in a carriage return and a newline, or with the file. */
  lemma LineEnds(prefix: string, table: map<string, SymType>, name: string, text: string)
    requires GoodName(name) && name in table && GoodPrefix(prefix, name) && PlainEnd(text)
    ensures var line := prefix + name + "=" + text;
            && ReadLine(prefix, table, line + "\r\n") == ReadLine(prefix, table, line + "\n")
            && ReadLine(prefix, table, line) == ReadLine(prefix, table, line + "\n")
  {
    hide ReadLine;
    AssignmentReadsBack(prefix, table, name, text, ParseValue(table[name], text));
    EndReads(prefix, table, name, text, "\r\n");
    EndReads(prefix, table, name, text, "");
    var line := prefix + name + "=" + text;
    assert line + "" == line;
  }

  lemma EndReads(prefix: string, table: map<string, SymType>, name: string, text: string, end: string)
    requires GoodName(name) && name in table && GoodPrefix(prefix, name) && PlainEnd(text)
    requires end == "\r\n" || end == ""
    ensures ReadLine(prefix, table, prefix + name + "=" + text + end)
            == Assigns(name, ParseValue(table[name], text))
  {
    hide ParseValue, DropEol, Upto;
    var line := prefix + name + "=" + text + end;
    var s := line[|prefix|..];
    assert prefix <= line;
    assert s == name + "=" + text + end;
    assert s[..|name|] == name && s[|name| + 1..] == text + end;
    UptoIs(s, '=', |name|);
    EndDropped(text, end);
  }

  lemma EndDropped(s: string, end: string)
    requires PlainEnd(s) && (end == "\r\n" || end == "")
    ensures DropEol(s + end) == s
  {
    var line := s + end;
    if end == "" {
      assert line == s;
      assert Upto(s, '\n') == |s|;
    } else {
      assert line[..|s| + 1] == s + "\r" && line[..|s|] == s;
      UptoIs(line, '\n', |s| + 1);
    }
  }

  /** A name the table does not have is skipped. */
  lemma UnknownSkipped(prefix: string, table: map<string, SymType>, name: string, text: string)
    requires '=' !in name && name !in table && GoodPrefix(prefix, name)
    ensures ReadLine(prefix, table, prefix + name + "=" + text).None?
  {
    hide Upto, DropEol;
    var line := prefix + name + "=" + text;
    var s := line[|prefix|..];
    assert prefix <= line;
    assert s == name + "=" + text && s[..|name|] == name;
    UptoIs(s, '=', |name|);
  }

  /** The lines that are written, spelt out. */
  lemma WrittenForm(name: string, text: string)
    ensures WriteSymbol("CONFIG_", name, Boolean, TriVal(NO)) == "# CONFIG_" + name + " is not set\n"
    ensures WriteSymbol("CONFIG_", name, Tristate, TriVal(NO)) == "# CONFIG_" + name + " is not set\n"
    ensures WriteSymbol("CONFIG_", name, Tristate, TriVal(MOD)) == "CONFIG_" + name + "=" + "m" + "\n"
    ensures WriteSymbol("CONFIG_", name, Tristate, TriVal(YES)) == "CONFIG_" + name + "=" + "y" + "\n"
    ensures WriteSymbol("CONFIG_", name, Boolean, TriVal(YES)) == "CONFIG_" + name + "=" + "y" + "\n"
    ensures WriteSymbol("CONFIG_", name, Int, TextVal(text)) == "CONFIG_" + name + "=" + text + "\n"
    ensures WriteSymbol("CONFIG_", name, Hex, TextVal(text)) == "CONFIG_" + name + "=" + text + "\n"
    ensures WriteSymbol("CONFIG_", name, Unknown, TextVal(text)) == ""
  {
    assert "# " + "CONFIG_" + name + " " + NOT_SET + "\n" == "# CONFIG_" + name + " is not set\n";
    assert "n" <= TriString(NO);
    assert "m"[0] != 'n' && "y"[0] != 'n' && !("n" <= TriString(MOD)) && !("n" <= TriString(YES));
  }

  lemma QuotedForm(name: string, text: string)
    requires '"' !in text && '\\' !in text
    ensures WriteSymbol("CONFIG_", name, Str, TextVal(text)) == "CONFIG_" + name + "=" + ("\"" + text + "\"") + "\n"
  {
    PlainEscape(text);
  }

  lemma {:induction false} PlainEscape(s: string)
    requires '"' !in s && '\\' !in s
    ensures EscapeBody(s) == s
  {
    if s != [] {
      PlainEscape(s[1..]);
      assert [s[0]] + s[1..] == s;
    }
  }

  // ----- quoted texts -----

  /** `body` spells `t`: a backslash stands before any character that is to be taken as it is,
      and has to stand before a quote or a backslash. */
  predicate Spells(body: string, t: string)
    decreases |body|
  {
    if body == [] then t == []
    else if body[0] == '\\' then |body| > 1 && t != [] && t[0] == body[1] && Spells(body[2..], t[1..])
    else body[0] != '"' && t != [] && t[0] == body[0] && Spells(body[1..], t[1..])
  }

  /** A quoted text is read iff it is ended by a quote after something that spells a text, and
      then as that text. */
  lemma {:induction false} QuotedText(s: string, t: string)
    ensures Unescape(s) == Some(t) <==> exists n :: 0 <= n < |s| && s[n] == '"' && Spells(s[..n], t)
    decreases |s|
  {
    if s == [] {
    } else if s[0] == '"' {
      assert s[..0] == [];
      if t == [] { assert Spells(s[..0], t); }
      forall n | 0 < n < |s| ensures !Spells(s[..n], t) { assert s[..n][0] == '"'; }
    } else {
      var w := if s[0] == '\\' then 2 else 1;
      if |s| >= w {
        var rest := s[w..];
        if t != [] { QuotedText(rest, t[1..]); }
        SpelledAfter(s, t, w);
        PushIs(s[w - 1], Unescape(rest), t);
      } else {
        forall n | 0 <= n < |s| ensures s[n] != '"' { }
      }
    }
  }

  lemma PushIs(c: char, r: Option<string>, t: string)
    ensures Push(c, r) == Some(t) <==> t != [] && t[0] == c && r == Some(t[1..])
  {
    if t != [] { assert t == [t[0]] + t[1..]; }
  }

  lemma SpelledAfter(s: string, t: string, w: nat)
    requires s != [] && s[0] != '"' && w == (if s[0] == '\\' then 2 else 1) && |s| >= w
    ensures (exists n :: 0 <= n < |s| && s[n] == '"' && Spells(s[..n], t))
            <==> t != [] && t[0] == s[w - 1]
                 && exists n :: 0 <= n < |s| - w && s[w..][n] == '"' && Spells(s[w..][..n], t[1..])
  {
    hide Spells;
    if exists n :: 0 <= n < |s| && s[n] == '"' && Spells(s[..n], t) {
      var n :| 0 <= n < |s| && s[n] == '"' && Spells(s[..n], t);
      SpellsNotOne(s, t, n);
      SpellsStep(s, t, w, n);
      assert s[w..][n - w] == '"';
    }
    if t != [] && t[0] == s[w - 1] {
      forall n | 0 <= n < |s| - w && s[w..][n] == '"' && Spells(s[w..][..n], t[1..])
        ensures s[n + w] == '"' && Spells(s[..n + w], t)
      {
        SpellsStep(s, t, w, n + w);
      }
    }
  }

  /** The closing quote is not the one that a backslash at the start takes. */
  lemma SpellsNotOne(s: string, t: string, n: nat)
    requires n < |s| && s[0] != '"' && s[n] == '"' && Spells(s[..n], t)
    ensures n >= if s[0] == '\\' then 2 else 1
  {
    if n == 1 { assert s[..1][0] == s[0]; }
  }

  lemma SpellsStep(s: string, t: string, w: nat, n: nat)
    requires s != [] && s[0] != '"' && w == (if s[0] == '\\' then 2 else 1) && w <= n <= |s|
    ensures Spells(s[..n], t) <==> t != [] && t[0] == s[w - 1] && Spells(s[w..][..n - w], t[1..])
  {
    assert s[..n][w..] == s[w..][..n - w];
  }
}

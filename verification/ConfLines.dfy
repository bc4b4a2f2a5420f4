/** Lines of the configuration file: writing a symbol and reading it back
    (scripts/config/symbol.c, lines 537-578 and 854-895; scripts/config/confdata.c,
    lines 230-289, 436-503, 608-629 and 731-749). */
module ConfLines {
  import opened Exprs

  // ----- quoting -----

  predicate Special(c: char) { c == '"' || c == '\\' }

  function EscapeBody(s: string): string {
    if s == [] then []
    else (if Special(s[0]) then ['\\', s[0]] else [s[0]]) + EscapeBody(s[1..])
  }

  /** sym_escape_string_value */
  function Escape(s: string): string { ['"'] + EscapeBody(s) + ['"'] }

  /** The text up to the closing quote with its backslashes resolved, for what follows an
      opening quote. */
  function Unescape(s: string): Option<string>
    decreases |s|
  {
    if s == [] then None
    else if s[0] == '"' then Some([])
    else if s[0] == '\\' then
      if |s| == 1 then None else Push(s[1], Unescape(s[2..]))
    else Push(s[0], Unescape(s[1..]))
  }

  function Push(c: char, r: Option<string>): Option<string> {
    if r.None? then None else Some([c] + r.value)
  }

  /** Unescaping inverts escaping, and stops at the closing quote whatever follows. */
  lemma {:induction false} UnescapeEscape(s: string, rest: string)
    ensures Unescape(EscapeBody(s) + ['"'] + rest) == Some(s)
  {
    var t := EscapeBody(s) + ['"'] + rest;
    if s != [] {
      UnescapeEscape(s[1..], rest);
      var u := EscapeBody(s[1..]) + ['"'] + rest;
      if Special(s[0]) {
        assert t == ['\\', s[0]] + u;
        assert t[2..] == u;
      } else {
        assert t == [s[0]] + u;
        assert t[1..] == u;
      }
      assert [s[0]] + s[1..] == s;
    }
  }

  function SpecialCount(s: string): nat {
    if s == [] then 0 else (if Special(s[0]) then 1 else 0) + SpecialCount(s[1..])
  }

  /** The size sym_escape_string_value allocates, with the terminator. */
  function BufferSize(s: string): nat { |s| + 2 + 1 + SpecialCount(s) }

  lemma {:induction false} EscapeFillsBuffer(s: string)
    ensures |Escape(s)| + 1 == BufferSize(s)
  {
    EscapeBodyLength(s);
  }

  lemma {:induction false} EscapeBodyLength(s: string)
    ensures |EscapeBody(s)| == |s| + SpecialCount(s)
  {
    if s != [] { EscapeBodyLength(s[1..]); }
  }

  /** The first pass of sym_escape_string_value. */
  method MeasureEscaped(s: string) returns (size: nat)
    ensures size == BufferSize(s)
  {
    size := |s| + 2 + 1;
    for i := 0 to |s|
      invariant size + SpecialCount(s[i..]) == BufferSize(s)
    {
      assert s[i..][1..] == s[i + 1..];
      if Special(s[i]) { size := size + 1; }
    }
    assert s[|s|..] == [];
  }

  /** The second pass of sym_escape_string_value: it fills the measured buffer exactly. */
  method EscapeInto(s: string) returns (buffer: array<char>)
    ensures buffer.Length == BufferSize(s)
    ensures buffer[..buffer.Length - 1] == Escape(s) && buffer[buffer.Length - 1] == '\0'
    ensures fresh(buffer)
  {
    hide BufferSize, EscapeBody;
    var size := MeasureEscaped(s);
    EscapeFillsBuffer(s);
    buffer := new char[size](_ => '\0');
    buffer[0] := '"';
    var n := 1;
    assert s[0..] == s && buffer[..1] == ['"'];
    for i := 0 to |s|
      invariant 1 <= n && n + |EscapeBody(s[i..])| + 2 == size
      invariant buffer[..n] + EscapeBody(s[i..]) == ['"'] + EscapeBody(s)
      invariant forall j :: n <= j < size ==> buffer[j] == '\0'
    {
      ghost var was := buffer[..n];
      EscapeStep(was, s, i);
      if Special(s[i]) {
        buffer[n] := '\\';
        buffer[n + 1] := s[i];
        assert buffer[..n + 2] == was + ['\\', s[i]];
        n := n + 2;
      } else {
        buffer[n] := s[i];
        assert buffer[..n + 1] == was + [s[i]];
        n := n + 1;
      }
    }
    EscapeDone(s);
    assert buffer[..n] + [] == buffer[..n];
    buffer[n] := '"';
    assert buffer[..n + 1] == buffer[..n] + ['"'];
  }

  lemma EscapeStep(was: string, s: string, i: nat)
    requires i < |s|
    ensures var put := if Special(s[i]) then ['\\', s[i]] else [s[i]];
            && was + EscapeBody(s[i..]) == was + put + EscapeBody(s[i + 1..])
            && |EscapeBody(s[i..])| == |put| + |EscapeBody(s[i + 1..])|
  {
    var put := if Special(s[i]) then ['\\', s[i]] else [s[i]];
    assert s[i..][1..] == s[i + 1..] && s[i..][0] == s[i];
    assert was + (put + EscapeBody(s[i + 1..])) == was + put + EscapeBody(s[i + 1..]);
  }

  lemma EscapeDone(s: string)
    ensures EscapeBody(s[|s|..]) == []
  {
    assert s[|s|..] == [];
  }

  // ----- unescaping in place -----

  /** memmove(p2, p2 + 1, strlen(p2)) on a string of length `n`: the tail and its
      terminator move down by one. */
  method ShiftDown(a: array<char>, p: nat, n: nat)
    requires p < n < a.Length && a[n] == '\0'
    modifies a
    ensures a[..n - 1] == old(a[..p]) + old(a[p + 1..n])
    ensures a[n - 1] == a[n] == '\0'
  {
    for i := p to n
      invariant forall j :: 0 <= j < p || i <= j < a.Length ==> a[j] == old(a[j])
      invariant forall j :: p <= j < i ==> a[j] == old(a[j + 1])
    {
      a[i] := a[i + 1];
    }
  }

  function PutBefore(x: string, r: Option<string>): Option<string> {
    if r.None? then None else Some(x + r.value)
  }

  /** The unescaping loop of conf_set_sym_val, from `start` just after the opening quote; the
      text ends at index `n`. On success the buffer holds the result before a terminator. */
  method UnescapeInPlace(a: array<char>, start: nat, n: nat) returns (end: Option<nat>)
    requires start <= n < a.Length && a[n] == '\0'
    modifies a
    ensures end.Some? <==> Unescape(old(a[start..n])).Some?
    ensures end.Some? ==>
              && start <= end.value < a.Length && a[end.value] == '\0'
              && Some(a[start..end.value]) == Unescape(old(a[start..n]))
    ensures a[..start] == old(a[..start])
  {
    hide Unescape, PutBefore;
    var p, len := start, n;
    ghost var b, head, goal := a[..n], a[..start], Unescape(a[start..n]);
    assert a[start..n] == b[start..] && b[start..start] == [];
    UnescapeEnds([], goal);
    while p < len
      invariant start <= p && start <= len < a.Length && a[len] == '\0'
      invariant a[..len] == b && b[..start] == head
      invariant p <= len ==> PutBefore(b[start..p], Unescape(b[p..])) == goal
      invariant p > len ==> goal.None?
      decreases len - p
    {
      UnescapeStep(b, start, p);
      if a[p] == '"' {
        a[p] := '\0';
        assert a[..p] == b[..p];
        assert a[start..p] == a[..p][start..] == b[start..p];
        assert a[..start] == a[..p][..start] == head;
        return Some(p);
      }
      if a[p] == '\\' {
        label L:
        ShiftDown(a, p, len);
        assert (b[..p] + b[p + 1..])[..start] == head;
        assert b[..p] == old@L(a[..p]) && b[p + 1..] == old@L(a[p + 1..len]);
        b, len := b[..p] + b[p + 1..], len - 1;
      }
      p := p + 1;
    }
    if p == len {
      assert b[p..] == [];
      UnescapeEnds(b[start..p], goal);
    }
    assert a[..start] == b[..start];
    end := None;
  }

  /** One step of the loop on the text `b`, whose part from `start` to `p` is resolved. */
  lemma UnescapeStep(b: string, start: nat, p: nat)
    requires start <= p < |b|
    ensures b[p] == '"' ==> PutBefore(b[start..p], Unescape(b[p..])) == Some(b[start..p])
    ensures b[p] == '\\' && p + 1 == |b| ==> PutBefore(b[start..p], Unescape(b[p..])).None?
    ensures b[p] == '\\' && p + 1 < |b| ==>
              var c := b[..p] + b[p + 1..];
              PutBefore(c[start..p + 1], Unescape(c[p + 1..])) == PutBefore(b[start..p], Unescape(b[p..]))
    ensures !Special(b[p]) ==>
              PutBefore(b[start..p + 1], Unescape(b[p + 1..])) == PutBefore(b[start..p], Unescape(b[p..]))
  {
    var text, done := b[p..], b[start..p];
    assert text[0] == b[p] && text[1..] == b[p + 1..];
    if b[p] == '"' {
      assert done + [] == done;
    } else if b[p] == '\\' && p + 1 < |b| {
      var c := b[..p] + b[p + 1..];
      assert text[2..] == c[p + 1..] && text[1] == b[p + 1];
      assert c[start..p + 1] == done + [b[p + 1]];
      PutOne(done, b[p + 1], Unescape(text[2..]));
    } else if !Special(b[p]) {
      assert b[start..p + 1] == done + [b[p]];
      PutOne(done, b[p], Unescape(text[1..]));
    }
  }

  lemma UnescapeEnds(x: string, r: Option<string>)
    ensures PutBefore([], r) == r
    ensures PutBefore(x, Unescape([])).None?
  {
    if r.Some? { assert [] + r.value == r.value; }
  }

  lemma PutOne(x: string, c: char, r: Option<string>)
    ensures PutBefore(x, Push(c, r)) == PutBefore(x + [c], r)
  {
    if r.Some? { assert x + ([c] + r.value) == x + [c] + r.value; }
  }

  // ----- values -----

  /** What a line can set: `def[].tri` or `def[].val`. */
  datatype LineValue = TriVal(t: Tri) | TextVal(s: string)

  predicate Digit(c: char) { '0' <= c <= '9' }

  predicate HexDigit(c: char) { Digit(c) || 'a' <= c <= 'f' || 'A' <= c <= 'F' }

  predicate AllDecimal(s: string) { forall i :: 0 <= i < |s| ==> Digit(s[i]) }

  predicate AllHex(s: string) { forall i :: 0 <= i < |s| ==> HexDigit(s[i]) }

  /** An int has an optional minus, no needless leading zero and decimal digits only; a hex
      has an optional 0x and hexadecimal digits only. */
  predicate ValidText(ty: SymType, s: string) {
    match ty
    case Str => true
    case Int =>
      var t := if "-" <= s then s[1..] else s;
      t != [] && AllDecimal(t) && (t[0] == '0' ==> |t| == 1)
    case Hex =>
      var t := if "0x" <= s || "0X" <= s then s[2..] else s;
      t != [] && AllHex(t)
    case Boolean => s != [] && s[0] in "yYmMnN"
    case Tristate => s != [] && s[0] in "yYmMnN"
    case Unknown => false
  }

  /** The character at a position of a terminated string. */
  function CharAt(s: string, i: nat): char
    requires i <= |s|
  {
    if i < |s| then s[i] else '\0'
  }

  /** sym_string_valid, reading up to the terminator. */
  method StringValid(ty: SymType, s: string) returns (ok: bool)
    requires '\0' !in s
    ensures ok <==> ValidText(ty, s)
  {
    match ty {
      case Str => ok := true;
      case Int => ok := IntValid(s);
      case Hex => ok := HexValid(s);
      case Boolean => ok := CharAt(s, 0) in "yYmMnN";
      case Tristate => ok := CharAt(s, 0) in "yYmMnN";
      case Unknown => ok := false;
    }
  }

  method IntValid(s: string) returns (ok: bool)
    requires '\0' !in s
    ensures ok <==> ValidText(Int, s)
  {
    var p := if CharAt(s, 0) == '-' then 1 else 0;
    ghost var t := s[p..];
    assert t == if "-" <= s then s[1..] else s;
    if !Digit(CharAt(s, p)) {
      assert t != [] ==> t[0] == s[p];
      return false;
    }
    assert t[0] == s[p];
    if s[p] == '0' && CharAt(s, p + 1) != '\0' { return false; }
    var q := p + 1;
    while CharAt(s, q) != '\0'
      invariant p < q <= |s| && forall i :: p <= i < q ==> Digit(s[i])
      decreases |s| - q
    {
      if !Digit(s[q]) {
        assert t[q - p] == s[q];
        return false;
      }
      q := q + 1;
    }
    assert s[p..q] == t;
    ok := true;
  }

  method HexValid(s: string) returns (ok: bool)
    requires '\0' !in s
    ensures ok <==> ValidText(Hex, s)
  {
    var p := if CharAt(s, 0) == '0' && (CharAt(s, 1) == 'x' || CharAt(s, 1) == 'X') then 2 else 0;
    ghost var t := s[p..];
    assert t == if "0x" <= s || "0X" <= s then s[2..] else s;
    if !HexDigit(CharAt(s, p)) {
      assert t != [] ==> t[0] == s[p];
      return false;
    }
    var q := p + 1;
    while CharAt(s, q) != '\0'
      invariant p < q <= |s| && forall i :: p <= i < q ==> HexDigit(s[i])
      decreases |s| - q
    {
      if !HexDigit(s[q]) {
        assert t[q - p] == s[q];
        return false;
      }
      q := q + 1;
    }
    assert s[p..q] == t;
    ok := true;
  }

  /** What conf_set_sym_val stores for a value text; None when it stores nothing. */
  function ParseValue(ty: SymType, p: string): Option<LineValue> {
    match ty
    case Boolean => ParseTri(p, false)
    case Tristate => ParseTri(p, true)
    case Str =>
      if p == [] || p[0] != '"' then None
      else
        var r := Unescape(p[1..]);
        if r.None? then None else Some(TextVal(r.value))
    case Int => if ValidText(Int, p) then Some(TextVal(p)) else None
    case Hex => if ValidText(Hex, p) then Some(TextVal(p)) else None
    case Unknown => None
  }

  function ParseTri(p: string, modules: bool): Option<LineValue> {
    if p == [] then None
    else if modules && p[0] == 'm' then Some(TriVal(MOD))
    else if p[0] == 'y' then Some(TriVal(YES))
    else if p[0] == 'n' then Some(TriVal(NO))
    else None
  }

  /** conf_set_sym_val on the buffer that holds the line. */
  method SetSymVal(ty: SymType, a: array<char>, start: nat, n: nat) returns (r: Option<LineValue>)
    requires start <= n < a.Length && a[n] == '\0' && '\0' !in a[start..n]
    modifies a
    ensures r == ParseValue(ty, old(a[start..n]))
    ensures a[..start] == old(a[..start])
  {
    ghost var p := a[start..n];
    assert p != [] ==> p[0] == a[start];
    match ty {
      case Tristate =>
        r := if a[start] == 'm' then Some(TriVal(MOD))
             else if a[start] == 'y' then Some(TriVal(YES))
             else if a[start] == 'n' then Some(TriVal(NO)) else None;
      case Boolean =>
        r := if a[start] == 'y' then Some(TriVal(YES))
             else if a[start] == 'n' then Some(TriVal(NO)) else None;
      case Str =>
        if a[start] != '"' { return None; }
        assert p[1..] == a[start + 1..n];
        ghost var head := a[..start + 1];
        var end := UnescapeInPlace(a, start + 1, n);
        assert a[..start] == head[..start];
        r := if end.Some? then Some(TextVal(a[start + 1..end.value])) else None;
      case Int =>
        var ok := StringValid(ty, a[start..n]);
        r := if ok then Some(TextVal(a[start..n])) else None;
      case Hex =>
        var ok := StringValid(ty, a[start..n]);
        r := if ok then Some(TextVal(a[start..n])) else None;
      case Unknown => r := None;
    }
  }

  // ----- lines -----

  /** strchr as an index; the length when the character does not occur. */
  function Upto(s: string, c: char): (k: nat)
    ensures k <= |s| && c !in s[..k] && (k < |s| ==> s[k] == c)
  {
    if s == [] || s[0] == c then 0
    else
      var k := 1 + Upto(s[1..], c);
      assert s[..k] == [s[0]] + s[1..][..k - 1];
      k
  }

  lemma UptoIs(s: string, c: char, k: nat)
    requires k < |s| && s[k] == c && c !in s[..k]
    ensures Upto(s, c) == k
  {
    assert s[..Upto(s, c)] <= s && s[..k] <= s;
  }

  const NOT_SET := "is not set"

  /** sym_find: the names y, m and n are the constants, which have no type. */
  function TypeOf(table: map<string, SymType>, name: string): SymType {
    if name == "y" || name == "m" || name == "n" || name !in table then Unknown else table[name]
  }

  /** The value text after '=', without its line end. */
  function DropEol(p: string): string {
    var k := Upto(p, '\n');
    if k == |p| then p
    else if k > 0 && p[k - 1] == '\r' then p[..k - 1]
    else p[..k]
  }

  type Assigned = Option<(string, LineValue)>

  function Assigns(name: string, v: Option<LineValue>): Assigned {
    if v.None? then None else Some((name, v.value))
  }

  /** The user value that one line of a configuration file sets. */
  function ReadLine(prefix: string, table: map<string, SymType>, line: string): Assigned {
    if "#" <= line then
      if |line| < 2 || !(prefix <= line[2..]) then None
      else ReadUnset(table, line[2..][|prefix|..])
    else if prefix <= line then ReadAssignment(table, line[|prefix|..])
    else None
  }

  function ReadUnset(table: map<string, SymType>, s: string): Assigned {
    var k := Upto(s, ' ');
    if k == |s| || !(NOT_SET <= s[k + 1..]) then None
    else
      var ty := TypeOf(table, s[..k]);
      if ty == Boolean || ty == Tristate then Some((s[..k], TriVal(NO))) else None
  }

  function ReadAssignment(table: map<string, SymType>, s: string): Assigned {
    var k := Upto(s, '=');
    if k == |s| then None
    else Assigns(s[..k], ParseValue(TypeOf(table, s[..k]), DropEol(s[k + 1..])))
  }

  /** kconfig_print_symbol */
  function PrintSymbol(prefix: string, name: string, ty: SymType, value: string): string {
    if (ty == Boolean || ty == Tristate) && "n" <= value then "# " + prefix + name + " " + NOT_SET + "\n"
    else prefix + name + "=" + value + "\n"
  }

  /** conf_write_symbol */
  function WriteSymbol(prefix: string, name: string, ty: SymType, v: LineValue): string {
    match ty
    case Unknown => ""
    case Str => PrintSymbol(prefix, name, ty, Escape(Text(v)))
    case _ => PrintSymbol(prefix, name, ty, Text(v))
  }

  /** sym_get_string_value */
  function Text(v: LineValue): string {
    match v
    case TriVal(t) => TriString(t)
    case TextVal(s) => s
  }

  // ----- a written line reads back -----

  /** A name as the parser makes them: it is no constant and a line can hold it. */
  predicate GoodName(name: string) {
    name != "y" && name != "m" && name != "n" && ' ' !in name && '=' !in name && '\n' !in name
  }

  /** A value of the type whose text fits into one line. */
  predicate Holdable(ty: SymType, v: LineValue) {
    match ty
    case Boolean => v.TriVal? && v.t != MOD
    case Tristate => v.TriVal?
    case Str => v.TextVal? && '\n' !in v.s
    case Int => v.TextVal? && PlainEnd(v.s)
    case Hex => v.TextVal? && PlainEnd(v.s)
    case Unknown => false
  }

  /** The reader accepts the text: an int or hex without a value is written and not read. */
  predicate Admitted(ty: SymType, v: LineValue) {
    (ty == Int || ty == Hex) && v.TextVal? ==> ValidText(ty, v.s)
  }

  /** Neither kind of written line is mistaken for the other. */
  predicate GoodPrefix(prefix: string, name: string) { !("#" <= prefix + name) }

  lemma WrittenLineReadsBack(prefix: string, table: map<string, SymType>, name: string, v: LineValue)
    requires GoodName(name) && name in table && Holdable(table[name], v) && GoodPrefix(prefix, name)
    ensures ReadLine(prefix, table, WriteSymbol(prefix, name, table[name], v))
            == if Admitted(table[name], v) then Some((name, v)) else None
  {
    hide ReadLine, ParseValue, Escape, Admitted;
    var ty := table[name];
    ValueReadsBack(ty, v);
    if v == TriVal(NO) {
      UnsetReadsBack(prefix, table, name);
    } else {
      AssignmentReadsBack(prefix, table, name, ValueText(ty, v), if Admitted(ty, v) then Some(v) else None);
    }
  }

  /** What stands after '=' for a value. */
  function ValueText(ty: SymType, v: LineValue): string {
    if ty.Str? then Escape(Text(v)) else Text(v)
  }

  lemma ValueReadsBack(ty: SymType, v: LineValue)
    requires Holdable(ty, v)
    ensures PlainEnd(ValueText(ty, v))
    ensures ParseValue(ty, ValueText(ty, v)) == if Admitted(ty, v) then Some(v) else None
    ensures v.TriVal? ==> Admitted(ty, v)
  {
    if ty.Str? {
      EscapeIsLine(v.s);
      UnescapeEscape(v.s, []);
      assert EscapeBody(v.s) + ['"'] + [] == Escape(v.s)[1..];
    }
  }

  /** A text that its type admits always fits. */
  lemma AdmittedFits(ty: SymType, s: string)
    requires (ty == Int || ty == Hex) && ValidText(ty, s)
    ensures Holdable(ty, TextVal(s))
  {
    forall i | 0 <= i < |s| ensures s[i] == '-' || s[i] == 'x' || s[i] == 'X' || HexDigit(s[i]) {
      if ty.Int? {
        if "-" <= s { assert s == "-" + s[1..]; }
      } else if "0x" <= s || "0X" <= s {
        assert s == s[..2] + s[2..];
      }
    }
  }

  /** A text that ends its line unchanged. */
  predicate PlainEnd(s: string) { '\n' !in s && (s != [] ==> s[|s| - 1] != '\r') }

  lemma {:induction false} EscapeBodyKeeps(s: string, c: char)
    requires c !in s && c != '\\'
    ensures c !in EscapeBody(s)
  {
    if s != [] {
      assert s == [s[0]] + s[1..];
      EscapeBodyKeeps(s[1..], c);
    }
  }

  lemma EscapeIsLine(s: string)
    requires '\n' !in s
    ensures PlainEnd(Escape(s))
  {
    EscapeBodyKeeps(s, '\n');
  }

  lemma EolDropped(s: string)
    requires PlainEnd(s)
    ensures DropEol(s + "\n") == s
  {
    var line := s + "\n";
    assert line[..|s|] == s;
    UptoIs(line, '\n', |s|);
  }

  lemma AssignmentReadsBack(prefix: string, table: map<string, SymType>, name: string, text: string,
                            v: Option<LineValue>)
    requires GoodName(name) && name in table && GoodPrefix(prefix, name)
    requires PlainEnd(text) && ParseValue(table[name], text) == v
    ensures ReadLine(prefix, table, prefix + name + "=" + text + "\n") == Assigns(name, v)
  {
    hide ParseValue, DropEol, Upto;
    var line := prefix + name + "=" + text + "\n";
    var s := line[|prefix|..];
    assert prefix <= line;
    assert s == name + "=" + text + "\n";
    assert s[..|name|] == name && s[|name| + 1..] == text + "\n";
    UptoIs(s, '=', |name|);
    EolDropped(text);
  }

  lemma UnsetReadsBack(prefix: string, table: map<string, SymType>, name: string)
    requires GoodName(name) && name in table && (table[name] == Boolean || table[name] == Tristate)
    ensures ReadLine(prefix, table, "# " + prefix + name + " " + NOT_SET + "\n") == Some((name, TriVal(NO)))
  {
    hide Upto;
    var line := "# " + prefix + name + " " + NOT_SET + "\n";
    assert line[2..] == prefix + name + " " + NOT_SET + "\n";
    var s := line[2..][|prefix|..];
    assert s == name + " " + NOT_SET + "\n";
    assert s[..|name|] == name && s[|name| + 1..] == NOT_SET + "\n";
    UptoIs(s, ' ', |name|);
  }

  /** A menu prompt that begins like an unset symbol is the one comment that is not ignored. */
  predicate ReadsAsUnset(prefix: string, table: map<string, SymType>, name: string, text: string) {
    && ' ' !in name && TypeOf(table, name) in {Boolean, Tristate}
    && prefix + name + " " + NOT_SET <= text
  }

  lemma NoteIgnored(prefix: string, table: map<string, SymType>, text: string)
    ensures ReadLine(prefix, table, "# " + text + "\n").None?
            <==> forall name :: !ReadsAsUnset(prefix, table, name, text)
  {
    hide ReadLine, ReadsAsUnset;
    if ReadLine(prefix, table, "# " + text + "\n").Some? {
      var name := NoteNames(prefix, table, text);
    }
    forall name | ReadsAsUnset(prefix, table, name, text)
      ensures ReadLine(prefix, table, "# " + text + "\n").Some?
    {
      NoteTaken(prefix, table, name, text);
    }
  }

  lemma NoteNames(prefix: string, table: map<string, SymType>, text: string) returns (name: string)
    requires ReadLine(prefix, table, "# " + text + "\n").Some?
    ensures ReadsAsUnset(prefix, table, name, text)
  {
    hide ReadUnset, ReadAssignment;
    assert ("# " + text + "\n")[2..] == text + "\n";
    var s, rest := (text + "\n")[|prefix|..], "";
    name, rest := UnsetNames(table, s);
    assert s == name + " " + NOT_SET + rest;
    PrefixOfText(prefix, name + " " + NOT_SET, rest, text);
    assert prefix + (name + " " + NOT_SET) == prefix + name + " " + NOT_SET;
  }

  lemma UnsetNames(table: map<string, SymType>, s: string) returns (name: string, rest: string)
    requires ReadUnset(table, s).Some? && (s != [] ==> s[|s| - 1] == '\n')
    ensures ' ' !in name && TypeOf(table, name) in {Boolean, Tristate}
    ensures s == name + " " + NOT_SET + rest && rest != []
  {
    hide Upto;
    var k := Upto(s, ' ');
    var more := s[k + 1..];
    name, rest := s[..k], more[|NOT_SET|..];
    assert s == name + " " + more;
    AfterNotSet(more);
  }

  lemma AfterNotSet(more: string)
    requires NOT_SET <= more && more[|more| - 1] == '\n'
    ensures more[|NOT_SET|..] != [] && more == NOT_SET + more[|NOT_SET|..]
  {
    assert NOT_SET[|NOT_SET| - 1] == 't';
  }

  lemma PrefixOfText(prefix: string, mid: string, rest: string, text: string)
    requires prefix <= text + "\n" && (text + "\n")[|prefix|..] == mid + rest && rest != []
    ensures prefix + mid <= text
  {
    assert text + "\n" == prefix + mid + rest;
    assert text == (text + "\n")[..|text|];
  }

  lemma NoteTaken(prefix: string, table: map<string, SymType>, name: string, text: string)
    requires ReadsAsUnset(prefix, table, name, text)
    ensures ReadLine(prefix, table, "# " + text + "\n").Some?
  {
    hide Upto;
    assert ("# " + text + "\n")[2..] == text + "\n";
    var head := prefix + name + " " + NOT_SET;
    assert text == head + text[|head|..];
    var s := (text + "\n")[|prefix|..];
    assert s == name + " " + NOT_SET + text[|head|..] + "\n";
    assert s[..|name|] == name && s[|name|] == ' ' && NOT_SET <= s[|name| + 1..];
    UptoIs(s, ' ', |name|);
  }

  // ----- files -----

  /** What conf_write prints: symbols, comment texts, lone hashes and empty lines. */
  datatype Item = Entry(name: string, v: LineValue) | Note(text: string) | Rule | Blank

  function Render(prefix: string, table: map<string, SymType>, item: Item): string {
    match item
    case Entry(name, v) => WriteSymbol(prefix, name, TypeOf(table, name), v)
    case Note(text) => "# " + text + "\n"
    case Rule => "#\n"
    case Blank => "\n"
  }

  function WriteFile(prefix: string, table: map<string, SymType>, items: seq<Item>): string {
    if items == [] then ""
    else Render(prefix, table, items[0]) + WriteFile(prefix, table, items[1..])
  }

  type Conf = map<string, LineValue>

  function Store(conf: Conf, r: Assigned): Conf {
    if r.None? then conf else conf[r.value.0 := r.value.1]
  }

  /** The next line with its end, as compat_getline returns it. */
  function FirstLine(text: string): (line: string)
    requires text != []
    ensures line != [] && line <= text
  {
    var k := Upto(text, '\n');
    if k < |text| then text[..k + 1] else text
  }

  /** conf_read_simple's loop */
  function ReadFile(prefix: string, table: map<string, SymType>, text: string, conf: Conf): Conf
    decreases |text|
  {
    if text == [] then conf
    else
      var line := FirstLine(text);
      ReadFile(prefix, table, text[|line|..], Store(conf, ReadLine(prefix, table, line)))
  }

  /** An entry that the reader accepts. */
  predicate Sets(table: map<string, SymType>, item: Item) {
    item.Entry? && Admitted(TypeOf(table, item.name), item.v)
  }

  /** The values of those entries, a later one replacing an earlier one. */
  function Values(table: map<string, SymType>, items: seq<Item>, conf: Conf): Conf {
    if items == [] then conf
    else
      var conf' := if Sets(table, items[0]) then conf[items[0].name := items[0].v] else conf;
      Values(table, items[1..], conf')
  }

  /** An entry that a line can hold, or a comment that is ignored. */
  ghost predicate GoodItem(prefix: string, table: map<string, SymType>, item: Item) {
    match item
    case Entry(name, v) =>
      && GoodName(name) && name in table && Holdable(table[name], v) && GoodPrefix(prefix, name)
    case Note(text) => '\n' !in text && forall name :: !ReadsAsUnset(prefix, table, name, text)
    case Rule => true
    case Blank => true
  }

  lemma OneLine(body: string, rest: string)
    requires '\n' !in body
    ensures FirstLine(body + "\n" + rest) == body + "\n"
  {
    var text := body + "\n" + rest;
    assert text[..|body|] == body && text[..|body| + 1] == body + "\n";
    UptoIs(text, '\n', |body|);
  }

  /** Each item is one line, and reading that line stores the item's value and nothing else. */
  lemma ItemReadsBack(prefix: string, table: map<string, SymType>, item: Item, rest: string)
    requires GoodItem(prefix, table, item) && '\n' !in prefix
    ensures FirstLine(Render(prefix, table, item) + rest) == Render(prefix, table, item)
    ensures ReadLine(prefix, table, Render(prefix, table, item))
            == if Sets(table, item) then Some((item.name, item.v)) else None
  {
    var line := Render(prefix, table, item);
    RenderIsLine(prefix, table, item);
    OneLine(line[..|line| - 1], rest);
    assert line == line[..|line| - 1] + "\n";
    ItemRead(prefix, table, item);
    hide *;
  }

  lemma ItemRead(prefix: string, table: map<string, SymType>, item: Item)
    requires GoodItem(prefix, table, item)
    ensures ReadLine(prefix, table, Render(prefix, table, item))
            == if Sets(table, item) then Some((item.name, item.v)) else None
  {
    match item {
      case Entry(name, v) =>
        WrittenLineReadsBack(prefix, table, name, v);
        hide ReadLine, WriteSymbol;
      case Note(text) =>
        NoteIgnored(prefix, table, text);
        hide ReadLine;
      case Rule => assert "#\n"[2..] == "";
      case Blank => BlankRead(prefix, table);
    }
  }

  lemma BlankRead(prefix: string, table: map<string, SymType>)
    ensures ReadLine(prefix, table, "\n").None?
  {
    if prefix <= "\n" {
      var s := "\n"[|prefix|..];
      assert '=' !in s;
    }
  }

  predicate IsLine(line: string) {
    line != [] && line[|line| - 1] == '\n' && '\n' !in line[..|line| - 1]
  }

  lemma IsLineOf(a: string, b: string, c: string)
    requires '\n' !in a && '\n' !in b && '\n' !in c
    ensures IsLine(a + b + c + "\n")
  {
    assert (a + b + c + "\n")[..|a + b + c|] == a + b + c;
  }

  lemma RenderIsLine(prefix: string, table: map<string, SymType>, item: Item)
    requires GoodItem(prefix, table, item) && '\n' !in prefix
    ensures IsLine(Render(prefix, table, item))
  {
    match item {
      case Entry(name, v) => SymbolIsLine(prefix, name, table[name], v);
      case Note(text) => IsLineOf("# ", text, "");
      case Rule =>
      case Blank =>
    }
  }

  lemma SymbolIsLine(prefix: string, name: string, ty: SymType, v: LineValue)
    requires Holdable(ty, v) && '\n' !in prefix && '\n' !in name
    ensures IsLine(WriteSymbol(prefix, name, ty, v))
  {
    hide IsLine, Escape, Admitted;
    if v == TriVal(NO) {
      IsLineOf("# " + prefix, name, " " + NOT_SET);
      assert WriteSymbol(prefix, name, ty, v) == "# " + prefix + name + (" " + NOT_SET) + "\n";
    } else {
      ValueReadsBack(ty, v);
      IsLineOf(prefix + name, "=", ValueText(ty, v));
    }
  }

  /** A written configuration read back gives every entry its value and no other symbol one. */
  lemma {:induction false} WrittenFileReadsBack(prefix: string, table: map<string, SymType>,
                                                items: seq<Item>, conf: Conf)
    requires '\n' !in prefix && forall i :: 0 <= i < |items| ==> GoodItem(prefix, table, items[i])
    ensures ReadFile(prefix, table, WriteFile(prefix, table, items), conf) == Values(table, items, conf)
  {
    hide ReadLine, Render, FirstLine, GoodItem, Sets;
    if items != [] {
      var line, rest := Render(prefix, table, items[0]), WriteFile(prefix, table, items[1..]);
      ItemReadsBack(prefix, table, items[0], rest);
      assert FirstLine(line + rest) == line;
      RenderIsLine(prefix, table, items[0]);
      assert (line + rest)[|line|..] == rest;
      WrittenFileReadsBack(prefix, table, items[1..], Store(conf, ReadLine(prefix, table, line)));
    }
  }

  predicate DistinctNames(items: seq<Item>) {
    forall i, j :: 0 <= i < j < |items| && items[i].Entry? && items[j].Entry? ==> items[i].name != items[j].name
  }

  lemma {:induction false} ValuesAre(table: map<string, SymType>, items: seq<Item>, conf: Conf, name: string)
    requires DistinctNames(items)
    ensures name in Values(table, items, conf) <==>
              name in conf || exists i :: 0 <= i < |items| && Sets(table, items[i]) && items[i].name == name
    ensures forall i :: 0 <= i < |items| && Sets(table, items[i]) && items[i].name == name ==>
              name in Values(table, items, conf) && Values(table, items, conf)[name] == items[i].v
    ensures name in conf && (forall i :: 0 <= i < |items| && Sets(table, items[i]) ==> items[i].name != name) ==>
              name in Values(table, items, conf) && Values(table, items, conf)[name] == conf[name]
  {
    hide Admitted;
    if items != [] {
      var rest := items[1..];
      assert forall i :: 0 <= i < |rest| ==> rest[i] == items[i + 1];
      assert forall i :: 0 < i < |items| ==> items[i] == rest[i - 1];
      var conf' := if Sets(table, items[0]) then conf[items[0].name := items[0].v] else conf;
      ValuesAre(table, rest, conf', name);
    }
  }

  // ----- the reading loop -----

  method FindChar(a: array<char>, from: nat, n: nat, c: char) returns (k: nat)
    requires from <= n <= a.Length
    ensures from <= k <= n && k == from + Upto(a[from..n], c)
  {
    k := from;
    while k < n && a[k] != c
      invariant from <= k <= n && c !in a[from..k]
    {
      k := k + 1;
    }
    ghost var s := a[from..n];
    assert s[..k - from] == a[from..k];
    if k < n { UptoIs(s, c, k - from); } else { assert s[..|s|] == s; }
  }

  /** One turn of the loop, on the buffer that holds the line. */
  method ReadLineInPlace(prefix: string, table: map<string, SymType>, a: array<char>, n: nat)
    returns (r: Assigned)
    requires n < a.Length && a[n] == '\0' && '\0' !in a[..n]
    modifies a
    ensures r == ReadLine(prefix, table, old(a[..n]))
  {
    hide ReadUnset, ReadAssignment;
    ghost var line := a[..n];
    var m := |prefix|;
    if n > 0 && a[0] == '#' {
      if n < 2 + m || a[2..2 + m] != prefix {
        assert n >= 2 + m ==> line[2..][..m] == a[2..2 + m];
        return None;
      }
      assert line[2..][m..] == a[2 + m..n];
      r := ReadUnsetAt(table, a, 2 + m, n);
    } else if m <= n && a[..m] == prefix {
      assert line[m..] == a[m..n];
      r := ReadAssignmentAt(table, a, m, n);
    } else {
      assert m <= n ==> line[..m] == a[..m];
      r := None;
    }
  }

  /** The part after the prefix of a comment line. */
  method ReadUnsetAt(table: map<string, SymType>, a: array<char>, start: nat, n: nat) returns (r: Assigned)
    requires start <= n < a.Length
    ensures r == ReadUnset(table, a[start..n])
  {
    hide Upto;
    ghost var s := a[start..n];
    var p := FindChar(a, start, n, ' ');
    if p == n { return None; }
    var q := p + 1 + |NOT_SET|;
    ghost var more := s[p - start + 1..];
    assert more == a[p + 1..n];
    if q > n || a[p + 1..q] != NOT_SET {
      assert q <= n ==> more[..|NOT_SET|] == a[p + 1..q];
      return None;
    }
    assert a[p + 1..q] <= more;
    var name := a[start..p];
    assert name == s[..p - start];
    var ty := TypeOf(table, name);
    r := if ty == Boolean || ty == Tristate then Some((name, TriVal(NO))) else None;
  }

  /** The part after the prefix of an assignment line. */
  method ReadAssignmentAt(table: map<string, SymType>, a: array<char>, start: nat, n: nat)
    returns (r: Assigned)
    requires start <= n < a.Length && a[n] == '\0' && '\0' !in a[start..n]
    modifies a
    ensures r == ReadAssignment(table, old(a[start..n]))
  {
    hide Upto, ParseValue, DropEol;
    ghost var s := a[start..n];
    var p := FindChar(a, start, n, '=');
    if p == n { return None; }
    var name := a[start..p];
    assert name == s[..p - start];
    a[p] := '\0';
    assert a[p + 1..n] == s[p - start + 1..];
    r := ReadValue(table, name, a, p + 1, n);
  }

  /** The part after '=': cut the line end off and store the value. */
  method ReadValue(table: map<string, SymType>, name: string, a: array<char>, start: nat, n: nat)
    returns (r: Assigned)
    requires 0 < start <= n < a.Length && a[n] == '\0' && '\0' !in a[start..n] && a[start - 1] == '\0'
    modifies a
    ensures r == Assigns(name, ParseValue(TypeOf(table, name), DropEol(old(a[start..n]))))
  {
    hide Upto, ParseValue;
    ghost var p := a[start..n];
    var end := FindChar(a, start, n, '\n');
    if end < n {
      a[end] := '\0';
      assert a[start..end] == p[..end - start];
      if a[end - 1] == '\r' {
        end := end - 1;
        a[end] := '\0';
        assert a[start..end] == p[..end - start];
      }
    }
    assert a[start..end] == DropEol(p);
    var v := SetSymVal(TypeOf(table, name), a, start, end);
    r := Assigns(name, v);
  }

  /** conf_read_simple after conf_reset: every line in turn. */
  method ReadConfig(prefix: string, table: map<string, SymType>, text: string) returns (conf: Conf)
    requires '\0' !in text
    ensures conf == ReadFile(prefix, table, text, map[])
  {
    hide FirstLine, ReadLine;
    conf := map[];
    var rest := text;
    while rest != []
      invariant '\0' !in rest
      invariant ReadFile(prefix, table, rest, conf) == ReadFile(prefix, table, text, map[])
      decreases |rest|
    {
      var line := FirstLine(rest);
      var buffer := new char[|line| + 1](i requires 0 <= i <= |line| => if i < |line| then line[i] else '\0');
      assert buffer[..|line|] == line;
      var r := ReadLineInPlace(prefix, table, buffer, |line|);
      conf := Store(conf, r);
      rest := rest[|line|..];
    }
  }
}

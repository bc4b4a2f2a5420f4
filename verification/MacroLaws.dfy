/** What a reference yields: the arguments of a call, the variable it names and the text
    around it (scripts/config/preprocess.c, lines 112-277, 346-575). */
module MacroLaws {
  import opened Numbers
  import opened Exprs
  import opened Numerals
  import opened Preprocess

  // ----- the closing parenthesis -----

  function Nesting(c: char): int { if c == '(' then 1 else if c == ')' then -1 else 0 }

  /** Open parentheses less closed ones. */
  function Depth(s: string): int { if s == [] then 0 else Nesting(s[0]) + Depth(s[1..]) }

  ghost predicate Balanced(s: string) { Depth(s) == 0 && forall i :: 0 <= i <= |s| ==> Depth(s[..i]) >= 0 }

  /** The ')' at `q` is the one that closes what was open `nest` times before. */
  ghost predicate ClosesAt(s: string, nest: nat, q: nat) {
    && q < |s| && s[q] == ')' && nest + Depth(s[..q]) == 0
    && (forall i :: 0 <= i <= q ==> nest + Depth(s[..i]) >= 0)
  }

  lemma {:induction false} DepthConcat(a: string, b: string)
    ensures Depth(a + b) == Depth(a) + Depth(b)
  {
    if a == [] {
      assert a + b == b;
    } else {
      assert (a + b)[1..] == a[1..] + b;
      DepthConcat(a[1..], b);
    }
  }

  lemma DepthTail(s: string, i: nat)
    requires 0 < i <= |s|
    ensures Depth(s[..i]) == Nesting(s[0]) + Depth(s[1..][..i - 1])
  {
    assert s[..i][1..] == s[1..][..i - 1];
  }

  lemma ClosesTail(s: string, nest: nat, deeper: nat, q: nat)
    requires s != [] && deeper == nest + Nesting(s[0])
    ensures ClosesAt(s, nest, q + 1) <==> ClosesAt(s[1..], deeper, q)
  {
    hide Depth;
    var t := s[1..];
    assert Depth(s[..0]) == 0 by { DepthNone(s); }
    forall i | 0 <= i <= |t| ensures Depth(s[..i + 1]) == Nesting(s[0]) + Depth(t[..i]) { DepthTail(s, i + 1); }
    if ClosesAt(s, nest, q + 1) {
      forall i | 0 <= i <= q ensures deeper + Depth(t[..i]) >= 0 { assert nest + Depth(s[..i + 1]) >= 0; }
    }
    if ClosesAt(t, deeper, q) {
      forall i | 0 <= i <= q + 1 ensures nest + Depth(s[..i]) >= 0 {
        if i > 0 { assert deeper + Depth(t[..i - 1]) >= 0; }
      }
    }
  }

  lemma DepthNone(s: string)
    ensures Depth(s[..0]) == 0
  {
  }

  /** The scan finds that parenthesis, and fails only if there is none. */
  lemma {:induction false} CloseIs(s: string, nest: nat, q: nat)
    ensures FindClose(s, nest) == Some(q) <==> ClosesAt(s, nest, q)
  {
    if s != [] {
      if s[0] == ')' && nest == 0 {
        OnlyHere(s, q);
      } else {
        var deeper: nat := nest + Nesting(s[0]);
        if q > 0 {
          ClosesTail(s, nest, deeper, q - 1);
          CloseIs(s[1..], deeper, q - 1);
        }
      }
    }
  }

  lemma OnlyHere(s: string, q: nat)
    requires s != [] && s[0] == ')'
    ensures ClosesAt(s, 0, q) <==> q == 0
  {
    if 0 < q < |s| {
      DepthTail(s, 1);
      assert s[1..][..0] == [];
      assert Depth(s[..1]) == -1;
    }
  }

  lemma BalancedCloses(n: string, s: string)
    requires Balanced(n)
    ensures FindClose(n + ")" + s, 0) == Some(|n|)
  {
    var t := n + ")" + s;
    forall i | 0 <= i <= |n| ensures t[..i] == n[..i] { }
    assert n[..|n|] == n;
    assert forall i :: 0 <= i <= |n| ==> Depth(t[..i]) == Depth(n[..i]);
    CloseIs(t, 0, |n|);
  }

  // ----- the pieces between commas -----

  /** No comma at depth 0, for a text that starts at depth `nest`. */
  ghost predicate OnePiece(x: string, nest: int) {
    forall i :: 0 <= i < |x| && x[i] == ',' ==> nest + Depth(x[..i]) != 0
  }

  function Joined(parts: seq<string>): string
    requires parts != []
  {
    if |parts| == 1 then parts[0] else parts[0] + "," + Joined(parts[1..])
  }

  lemma PieceTail(x: string, nest: int)
    requires x != [] && OnePiece(x, nest)
    ensures !(nest == 0 && x[0] == ',') && OnePiece(x[1..], nest + Nesting(x[0]))
  {
    DepthNone(x);
    forall i | 0 <= i < |x| - 1 && x[1..][i] == ',' ensures nest + Nesting(x[0]) + Depth(x[1..][..i]) != 0 {
      DepthTail(x, i + 1);
      assert x[i + 1] == ',';
    }
  }

  lemma {:induction false} SplitOne(x: string, nest: int)
    requires OnePiece(x, nest)
    ensures SplitArgs(x, nest) == [x]
  {
    if x != [] {
      PieceTail(x, nest);
      SplitOne(x[1..], nest + Nesting(x[0]));
      assert [x[0]] + x[1..] == x;
    }
  }

  lemma {:induction false} SplitFirst(x: string, rest: string, nest: int)
    requires OnePiece(x, nest) && nest + Depth(x) == 0
    ensures SplitArgs(x + "," + rest, nest) == [x] + SplitArgs(rest, 0)
  {
    var s := x + "," + rest;
    if x == [] {
      assert s == "," + rest && s[1..] == rest;
    } else {
      PieceTail(x, nest);
      assert s[1..] == x[1..] + "," + rest && s[0] == x[0];
      SplitFirst(x[1..], rest, nest + Nesting(x[0]));
      assert [x[0]] + x[1..] == x;
      assert ([x[1..]] + SplitArgs(rest, 0))[1..] == SplitArgs(rest, 0);
    }
  }

  /** A piece: balanced, and with commas only inside its parentheses. */
  ghost predicate Piece(x: string) { OnePiece(x, 0) && Balanced(x) }

  /** Pieces joined by commas are split into those pieces. */
  lemma {:induction false} SplitOf(parts: seq<string>)
    requires parts != [] && forall x :: x in parts ==> Piece(x)
    ensures SplitArgs(Joined(parts), 0) == parts
  {
    hide SplitArgs, Depth, OnePiece;
    assert parts[0] in parts;
    if |parts| == 1 {
      assert parts == [parts[0]];
      SplitOne(parts[0], 0);
    } else {
      SplitOf(parts[1..]);
      SplitFirst(parts[0], Joined(parts[1..]), 0);
      assert [parts[0]] + parts[1..] == parts;
    }
  }

  lemma {:induction false} JoinedBalanced(parts: seq<string>)
    requires parts != [] && forall x :: x in parts ==> Piece(x)
    ensures Balanced(Joined(parts))
  {
    assert parts[0] in parts;
    if |parts| > 1 {
      JoinedBalanced(parts[1..]);
      BalancedPair(parts[0], Joined(parts[1..]));
    }
  }

  lemma BalancedPair(a: string, b: string)
    requires Balanced(a) && Balanced(b)
    ensures Balanced(a + "," + b)
  {
    hide Depth;
    var s := a + "," + b;
    DepthComma(a, b);
    forall i | 0 <= i <= |s| ensures Depth(s[..i]) >= 0 {
      if i <= |a| {
        assert s[..i] == a[..i];
      } else {
        var j := i - |a| - 1;
        assert s[..i] == a + "," + b[..j];
        DepthComma(a, b[..j]);
      }
    }
  }

  lemma DepthComma(a: string, b: string)
    ensures Depth(a + "," + b) == Depth(a) + Depth(b)
  {
    DepthConcat(a + ",", b);
    DepthConcat(a, ",");
    assert ","[1..] == [];
  }

  /** The pieces of a text that starts at depth `nest`: a comma in a piece stands inside
      parentheses, and a piece before a comma ends at depth 0. */
  ghost predicate Pieces(r: seq<string>, nest: int) {
    && r != [] && OnePiece(r[0], nest) && (forall k :: 0 < k < |r| ==> OnePiece(r[k], 0))
    && (|r| > 1 ==> nest + Depth(r[0]) == 0) && (forall k :: 0 < k < |r| - 1 ==> Depth(r[k]) == 0)
  }

  /** Conversely, whatever text is split, it is split into its pieces. */
  lemma {:induction false} SplitIs(s: string, nest: int)
    ensures Pieces(SplitArgs(s, nest), nest) && Joined(SplitArgs(s, nest)) == s
    decreases |s|
  {
    hide Pieces, Joined, SplitArgs, AddPrefix;
    SplitUnfold(s, nest);
    if s == [] {
      NoPieces(nest);
    } else {
      var t := s[1..];
      assert s == [s[0]] + t;
      if nest == 0 && s[0] == ',' {
        SplitIs(t, 0);
        NewPiece(SplitArgs(t, 0));
      } else {
        var rest := SplitArgs(t, nest + Nesting(s[0]));
        SplitIs(t, nest + Nesting(s[0]));
        PiecesGrow(s[0], rest, nest);
        JoinedGrows(s[0], rest);
      }
    }
  }

  lemma SplitUnfold(s: string, nest: int)
    ensures s == [] ==> SplitArgs(s, nest) == [[]]
    ensures s != [] && nest == 0 && s[0] == ',' ==> SplitArgs(s, nest) == [[]] + SplitArgs(s[1..], 0)
    ensures s != [] && !(nest == 0 && s[0] == ',') ==>
              SplitArgs(s, nest) == AddPrefix([s[0]], SplitArgs(s[1..], nest + Nesting(s[0])))
  {
  }

  lemma NoPieces(nest: int)
    ensures Pieces([[]], nest) && Joined([[]]) == []
  {
  }

  lemma NewPiece(r: seq<string>)
    requires Pieces(r, 0)
    ensures Pieces([[]] + r, 0) && Joined([[]] + r) == "," + Joined(r)
  {
    var q := [[]] + r;
    assert q[1..] == r;
    assert forall k :: 0 < k < |q| ==> q[k] == r[k - 1];
    assert [] + "," + Joined(r) == "," + Joined(r);
  }

  lemma PiecesGrow(c: char, r: seq<string>, nest: int)
    requires Pieces(r, nest + Nesting(c)) && !(nest == 0 && c == ',')
    ensures Pieces(AddPrefix([c], r), nest)
  {
    PieceGrows(c, r[0], nest);
    hide OnePiece, Depth;
    var q := AddPrefix([c], r);
    assert q[0] == [c] + r[0] && forall k :: 0 < k < |q| ==> q[k] == r[k];
  }

  lemma PieceGrows(c: char, x: string, nest: int)
    requires OnePiece(x, nest + Nesting(c)) && !(nest == 0 && c == ',')
    ensures OnePiece([c] + x, nest) && Depth([c] + x) == Nesting(c) + Depth(x)
  {
    var y := [c] + x;
    assert y[1..] == x;
    DepthNone(y);
    forall i | 0 <= i < |y| && y[i] == ',' ensures nest + Depth(y[..i]) != 0 {
      if i > 0 {
        DepthTail(y, i);
        assert x[i - 1] == ',';
      }
    }
  }

  lemma JoinedGrows(c: char, r: seq<string>)
    requires r != []
    ensures Joined(AddPrefix([c], r)) == [c] + Joined(r)
  {
    var q := AddPrefix([c], r);
    assert q[1..] == r[1..];
    if |r| > 1 {
      assert ([c] + r[0]) + "," + Joined(r[1..]) == [c] + (r[0] + "," + Joined(r[1..]));
    }
  }

  // ----- a reference in a text -----

  /** A reference between a plain text and any other yields its value there. */
  lemma ReferenceYields(w: World, c: Counts, a: string, clause: string, b: string, args: seq<string>)
    requires NoDollar(a) && Balanced(clause) && EvalClause(w, c, clause, args).Ok?
    ensures Expand(w, c, a + "$(" + clause + ")" + b, args, false)
            == Prepend(a + EvalClause(w, c, clause, args).value, Expand(w, c, b, args, false))
  {
    hide EvalClause, Expand, FindClose, Prepend, Balanced;
    var s, x := "$(" + clause + ")" + b, EvalClause(w, c, clause, args).value;
    assert a + "$(" + clause + ")" + b == a + s;
    TextExpands(w, c, a, s, args);
    BalancedCloses(clause, b);
    var q := |clause|;
    assert s[2..] == clause + ")" + b && s[2..2 + q] == clause && s[3 + q..] == b;
    ExpandReference(w, c, s, args, false);
    PrependTwice(a, x, Expand(w, c, b, args, false));
  }

  /** The same, of a text that ends there. */
  lemma ReferenceEnds(w: World, c: Counts, a: string, clause: string, b: string, args: seq<string>)
    requires NoDollar(a) && NoDollar(b) && Balanced(clause) && EvalClause(w, c, clause, args).Ok?
    ensures ExpandAll(w, c, a + "$(" + clause + ")" + b, args) == Ok(a + EvalClause(w, c, clause, args).value + b)
  {
    ReferenceYields(w, c, a, clause, b, args);
    PlainTextExpands(w, c, b, args);
    hide EvalClause, Expand, Balanced;
  }

  // ----- the arguments of the call around it -----

  lemma {:induction false} NoParens(s: string)
    requires '(' !in s && ')' !in s
    ensures Depth(s) == 0
  {
    if s != [] { NoParens(s[1..]); }
  }

  lemma NoParensBalanced(s: string)
    requires '(' !in s && ')' !in s
    ensures Balanced(s)
  {
    NoParens(s);
    forall i | 0 <= i <= |s| ensures Depth(s[..i]) == 0 { NoParens(s[..i]); }
  }

  /** $(k) is the k-th argument. */
  lemma NumberYields(w: World, c: Counts, k: nat, args: seq<string>)
    requires 1 <= k <= |args| && k < TWO_TO_64
    ensures EvalClause(w, c, Decimal(k), args) == Ok(args[k - 1]) && Balanced(Decimal(k))
  {
    hide Numeral, ParseNumber;
    DecimalParses(k, 10);
    NumeralValue(k, 10, false);
    var s := Decimal(k);
    forall i | 0 <= i < |s| ensures s[i] != '(' && s[i] != ')' { assert DigitVal(s[i]) < 10; }
    NoParensBalanced(s);
  }

  /** A text with references to arguments between its parts. */
  function Template(texts: seq<string>, ks: seq<nat>): string
    requires |texts| == |ks| + 1
  {
    if ks == [] then texts[0]
    else texts[0] + "$(" + Decimal(ks[0]) + ")" + Template(texts[1..], ks[1..])
  }

  function Filled(texts: seq<string>, ks: seq<nat>, args: seq<string>): string
    requires |texts| == |ks| + 1 && forall i :: 0 <= i < |ks| ==> 1 <= ks[i] <= |args|
  {
    if ks == [] then texts[0]
    else texts[0] + args[ks[0] - 1] + Filled(texts[1..], ks[1..], args)
  }

  /** Every reference to an argument is replaced by that argument, as it stands. */
  lemma {:induction false} TemplateExpands(w: World, c: Counts, texts: seq<string>, ks: seq<nat>, args: seq<string>)
    requires |texts| == |ks| + 1 && forall i :: 0 <= i < |ks| ==> 1 <= ks[i] <= |args|
    requires |args| < TWO_TO_64 && forall i :: 0 <= i < |texts| ==> NoDollar(texts[i])
    ensures ExpandAll(w, c, Template(texts, ks), args) == Ok(Filled(texts, ks, args))
  {
    hide Expand, EvalClause, Decimal, Balanced;
    if ks == [] {
      PlainTextExpands(w, c, texts[0], args);
    } else {
      NumberYields(w, c, ks[0], args);
      ReferenceYields(w, c, texts[0], Decimal(ks[0]), Template(texts[1..], ks[1..]), args);
      TemplateExpands(w, c, texts[1..], ks[1..], args);
    }
  }

  // ----- calls -----

  /** A clause that cannot be read as a number: it has a letter, an underscore or a comma. */
  ghost predicate Wordy(c: string) {
    exists i :: 0 <= i < |c| && (c[i] == '_' || c[i] == ',' || 'a' <= c[i] <= 'z' || 'A' <= c[i] <= 'Z')
  }

  lemma {:induction false} SkipKeeps(s: string, x: char)
    requires x in s && !IsSpace(x)
    ensures x in SkipSpace(s)
  {
    if s[0] != x && IsSpace(s[0]) {
      SkipKeeps(s[1..], x);
    }
  }

  lemma WordyIsNoNumber(c: string)
    requires Wordy(c)
    ensures ArgNumber(c) == 0
  {
    var i :| 0 <= i < |c| && (c[i] == '_' || c[i] == ',' || 'a' <= c[i] <= 'z' || 'A' <= c[i] <= 'Z');
    SkipKeeps(c, c[i]);
    var t := SkipSpace(c);
    hide SkipSpace, DigitsVal;
    var j :| 0 <= j < |t| && t[j] == c[i];
    var u := if t[0] == '-' || t[0] == '+' then t[1..] else t;
    assert c[i] in u;
    assert DigitVal(c[i]) >= 10;
  }

  lemma {:induction false} EachExpands(w: World, c: Counts, parts: seq<string>, xs: seq<string>, args: seq<string>,
                                       bound: nat)
    requires |xs| == |parts| && forall i :: 0 <= i < |parts| ==> ExpandAll(w, c, parts[i], args) == Ok(xs[i])
    requires forall i :: 0 <= i < |parts| ==> |parts[i]| <= bound
    ensures ExpandEach(w, c, parts, args, bound) == Ok(xs)
  {
    hide ExpandAll;
    if parts != [] {
      EachExpands(w, c, parts[1..], xs[1..], args, bound);
      assert [xs[0]] + xs[1..] == xs;
    }
  }

  /** A clause calls what its first piece expands to, with what the others expand to. */
  lemma ClauseCalls(w: World, c: Counts, parts: seq<string>, xs: seq<string>, args: seq<string>)
    requires 0 < |parts| <= 16 && |xs| == |parts| && (forall x :: x in parts ==> Piece(x))
    requires Wordy(Joined(parts))
    requires forall i :: 0 <= i < |parts| ==> ExpandAll(w, c, parts[i], args) == Ok(xs[i])
    ensures EvalClause(w, c, Joined(parts), args) == Call(w, c, xs[0], xs[1..])
  {
    hide ExpandAll, Call, SplitArgs, ExpandEach, Piece;
    WordyIsNoNumber(Joined(parts));
    SplitOf(parts);
    EachExpands(w, c, parts, xs, args, |Joined(parts)|);
  }

  /** The guards of variable_expand: not too deep, and without arguments not at all. */
  predicate MayEnter(counts: Counts, name: string, args: seq<string>) {
    Count(counts, name) <= 1000 && (args == [] ==> Count(counts, name) == 0)
  }

  /** A simple variable gives its value, which is not expanded again. */
  lemma SimpleYields(w: World, c: Counts, name: string, args: seq<string>)
    requires name in w.vars && !w.vars[name].recursive && MayEnter(c, name, args)
    ensures Call(w, c, name, args) == Ok(w.vars[name].value)
  {
    hide ExpandAll, Budget;
  }

  /** A recursive one gives its value with the arguments of the call in their places. */
  lemma FunctionYields(w: World, c: Counts, name: string, args: seq<string>, texts: seq<string>, ks: seq<nat>)
    requires |texts| == |ks| + 1 && forall i :: 0 <= i < |ks| ==> 1 <= ks[i] <= |args|
    requires |args| < TWO_TO_64 && forall i :: 0 <= i < |texts| ==> NoDollar(texts[i])
    requires name in w.vars && w.vars[name] == Variable(Template(texts, ks), true) && MayEnter(c, name, args)
    ensures Call(w, c, name, args) == Ok(Filled(texts, ks, args))
  {
    hide ExpandAll, Template, Filled;
    EnterCosts(w.vars.Keys, c, name);
    hide Budget;
    TemplateExpands(w, Enter(c, name), texts, ks, args);
  }

  /** A name that is neither variable nor built-in function gives the environment's value, or
      nothing. */
  lemma UnknownYields(w: World, c: Counts, name: string, args: seq<string>)
    requires name !in w.vars && name !in {"error-if", "filename", "info", "lineno", "shell", "warning-if"}
    ensures Call(w, c, name, args) == Ok(if args == [] && name != "" && name in w.env then w.env[name] else "")
  {
    hide ExpandAll, Budget;
  }

  /** A built-in function called with another number of arguments than its own is an error. */
  lemma BuiltinYields(w: World, c: Counts, name: string, args: seq<string>)
    requires name !in w.vars
    ensures name == "filename" ==> Call(w, c, name, args) == if args == [] then Ok(w.file) else Err
    ensures name == "lineno" ==> Call(w, c, name, args) == if args == [] then Ok(w.line) else Err
    ensures name == "shell" ==> Call(w, c, name, args) == if |args| == 1 then Ok(w.shell(args[0])) else Err
    ensures name == "info" ==> Call(w, c, name, args) == if |args| == 1 then Ok("") else Err
    ensures name == "warning-if" ==> Call(w, c, name, args) == if |args| == 2 then Ok("") else Err
    ensures name == "error-if" ==> Call(w, c, name, args) == if |args| == 2 && args[0] != "y" then Ok("") else Err
  {
    hide ExpandAll, Budget;
  }

  /** All together: a call in a text, with plain arguments, of a function that refers to its
      arguments anywhere. */
  lemma CallInText(w: World, c: Counts, a: string, name: string, args: seq<string>, b: string,
                   texts: seq<string>, ks: seq<nat>, outer: seq<string>)
    requires NoDollar(a) && NoDollar(b) && 0 < |args| < 16
    requires Piece(name) && NoDollar(name) && forall i :: 0 <= i < |args| ==> Piece(args[i]) && NoDollar(args[i])
    requires |texts| == |ks| + 1 && forall i :: 0 <= i < |ks| ==> 1 <= ks[i] <= |args|
    requires forall i :: 0 <= i < |texts| ==> NoDollar(texts[i])
    requires name in w.vars && w.vars[name] == Variable(Template(texts, ks), true) && MayEnter(c, name, args)
    ensures ExpandAll(w, c, a + "$(" + Joined([name] + args) + ")" + b, outer)
            == Ok(a + Filled(texts, ks, args) + b)
  {
    hide ExpandAll, Call, EvalClause, Template, Filled, Piece, Balanced, MayEnter;
    var parts := [name] + args;
    assert parts[0] == name && parts[1..] == args;
    forall i | 0 <= i < |parts| ensures Piece(parts[i]) && ExpandAll(w, c, parts[i], outer) == Ok(parts[i]) {
      PlainTextExpands(w, c, parts[i], outer);
    }
    JoinedHasComma(parts);
    JoinedBalanced(parts);
    ClauseCalls(w, c, parts, parts, outer);
    FunctionYields(w, c, name, args, texts, ks);
    ReferenceEnds(w, c, a, Joined(parts), b, outer);
  }

  lemma JoinedHasComma(parts: seq<string>)
    requires |parts| > 1
    ensures Wordy(Joined(parts))
  {
    var s := Joined(parts);
    assert s == parts[0] + "," + Joined(parts[1..]);
    assert s[|parts[0]|] == ',';
  }

  // ----- tokens -----

  predicate TokenChar(c: char) {
    '0' <= c <= '9' || 'a' <= c <= 'z' || 'A' <= c <= 'Z' || c in {'_', '-', '.', '/'}
  }

  /** expand_one_token takes a plain token and leaves what follows it. */
  lemma {:induction false} TokenExpands(w: World, c: Counts, a: string, rest: string, args: seq<string>)
    requires forall i :: 0 <= i < |a| ==> TokenChar(a[i])
    requires rest != [] ==> !TokenChar(rest[0]) && rest[0] != '$'
    ensures Expand(w, c, a + rest, args, true) == Ok(Scan(a, rest))
  {
    var t := a + rest;
    ExpandText(w, c, t, args, true);
    hide Expand;
    if a == [] {
      assert t == rest;
    } else {
      assert t[1..] == a[1..] + rest && t[0] == a[0];
      TokenExpands(w, c, a[1..], rest, args);
      assert [a[0]] + a[1..] == a;
    }
  }
}

/** Expansion of $(...) references in Kconfig files (scripts/config/preprocess.c). The
    environment, the shell and the position in the file are parameters. */
module Preprocess {
  import opened Numbers
  import opened Exprs

  datatype Variable = Variable(value: string, recursive: bool)

  datatype World = World(
    vars: map<string, Variable>, env: map<string, string>,
    file: string, line: string, shell: string -> string)

  /** exp_count of every variable. */
  type Counts = map<string, nat>

  /** A value, or the error exit of pperror. */
  datatype Result<T> = Ok(value: T) | Err

  const MAX_DEPTH := 1000
  const MAX_ARGS := 16

  // ----- the expansions that are still allowed -----

  function Count(counts: Counts, name: string): nat { if name in counts then counts[name] else 0 }

  /** How often `name` may still be entered. */
  function Headroom(counts: Counts, name: string): nat {
    if Count(counts, name) > MAX_DEPTH then 0 else MAX_DEPTH + 1 - Count(counts, name)
  }

  ghost function Budget(names: set<string>, counts: Counts): nat {
    if names == {} then 0
    else
      var n :| n in names;
      Headroom(counts, n) + Budget(names - {n}, counts)
  }

  lemma {:induction false} BudgetSplit(names: set<string>, counts: Counts, n: string)
    requires n in names
    ensures Budget(names, counts) == Headroom(counts, n) + Budget(names - {n}, counts)
    decreases names
  {
    var m :| m in names && Budget(names, counts) == Headroom(counts, m) + Budget(names - {m}, counts);
    if m != n {
      BudgetSplit(names - {m}, counts, n);
      BudgetSplit(names - {n}, counts, m);
      assert names - {m} - {n} == names - {n} - {m};
    }
  }

  lemma {:induction false} BudgetElsewhere(names: set<string>, counts: Counts, n: string, c: nat)
    requires n !in names
    ensures Budget(names, counts[n := c]) == Budget(names, counts)
    decreases names
  {
    if names != {} {
      var m :| m in names;
      BudgetElsewhere(names - {m}, counts, n, c);
      BudgetSplit(names, counts, m);
      BudgetSplit(names, counts[n := c], m);
    }
  }

  /** Entering a variable uses up one expansion. */
  lemma EnterCosts(names: set<string>, counts: Counts, n: string)
    requires n in names && Headroom(counts, n) > 0
    ensures Budget(names, Enter(counts, n)) == Budget(names, counts) - 1
  {
    BudgetSplit(names, counts, n);
    BudgetSplit(names, Enter(counts, n), n);
    BudgetElsewhere(names - {n}, counts, n, Count(counts, n) + 1);
  }

  function Enter(counts: Counts, n: string): Counts { counts[n := Count(counts, n) + 1] }

  // ----- scanning -----

  /** The offset of the ')' that closes an already opened '('. */
  function FindClose(s: string, nest: nat): (r: Option<nat>)
    ensures r.Some? ==> r.value < |s|
    decreases |s|
  {
    if s == [] then None
    else if s[0] == ')' && nest == 0 then Some(0)
    else
      var deeper := if s[0] == '(' then nest + 1 else if s[0] == ')' then nest - 1 else nest;
      match FindClose(s[1..], deeper)
      case None => None
      case Some(n) => Some(n + 1)
  }

  /** Pieces between top-level commas. */
  function SplitArgs(s: string, nest: int): (r: seq<string>)
    ensures r != [] && forall i :: 0 <= i < |r| ==> |r[i]| <= |s|
    decreases |s|
  {
    if s == [] then [[]]
    else if nest == 0 && s[0] == ',' then [[]] + SplitArgs(s[1..], nest)
    else
      var deeper := if s[0] == '(' then nest + 1 else if s[0] == ')' then nest - 1 else nest;
      var rest := SplitArgs(s[1..], deeper);
      [[s[0]] + rest[0]] + rest[1..]
  }

  predicate IsAlnum(c: char) { '0' <= c <= '9' || 'a' <= c <= 'z' || 'A' <= c <= 'Z' }

  predicate IsTokenEnd(c: char) { !(IsAlnum(c) || c == '_' || c == '-' || c == '.' || c == '/') }

  /** `strtoul` on the whole clause, for $(1), $(2), ... */
  function ArgNumber(c: string): nat {
    match ParseNumber(c, 10)
    case None => 0
    case Some((neg, n)) => if n >= TWO_TO_64 then TWO_TO_64 - 1 else if neg then (TWO_TO_64 - n) % TWO_TO_64 else n
  }

  // ----- built-in functions -----

  /** function_expand: nothing if there is no such function. */
  function Builtin(w: World, name: string, args: seq<string>): Option<Result<string>> {
    if name == "error-if" then Some(if |args| != 2 || args[0] == "y" then Err else Ok(""))
    else if name == "filename" then Some(if |args| != 0 then Err else Ok(w.file))
    else if name == "info" then Some(if |args| != 1 then Err else Ok(""))
    else if name == "lineno" then Some(if |args| != 0 then Err else Ok(w.line))
    else if name == "shell" then Some(if |args| != 1 then Err else Ok(w.shell(args[0])))
    else if name == "warning-if" then Some(if |args| != 2 then Err else Ok(""))
    else None
  }

  function FromEnv(w: World, name: string, args: seq<string>): string {
    if args == [] && name != [] && name in w.env then w.env[name] else ""
  }

  // ----- expansion -----

  /** The expanded text and what is left of the input. */
  datatype Scan = Scan(out: string, rest: string)

  /** __expand_string: up to the end of the string, or of the token. */
  function Expand(w: World, counts: Counts, s: string, args: seq<string>, token: bool): (r: Result<Scan>)
    ensures r.Ok? ==> |r.value.rest| <= |s|
    decreases Budget(w.vars.Keys, counts), |s|, 1
  {
    if s != [] && s[0] == '$' then
      if |s| < 2 || s[1] != '(' then Prepend("$", Expand(w, counts, s[1..], args, token))
      else
        match FindClose(s[2..], 0)
        case None => Err
        case Some(q) =>
          match EvalClause(w, counts, s[2..2 + q], args)
          case Err => Err
          case Ok(x) => Prepend(x, Expand(w, counts, s[3 + q..], args, token))
    else if s == [] || (token && IsTokenEnd(s[0])) then Ok(Scan("", s))
    else Prepend([s[0]], Expand(w, counts, s[1..], args, token))
  }

  function Prepend(x: string, r: Result<Scan>): (p: Result<Scan>)
    ensures r.Ok? ==> p == Ok(Scan(x + r.value.out, r.value.rest))
    ensures r.Err? ==> p.Err?
  {
    if r.Err? then Err else Ok(Scan(x + r.value.out, r.value.rest))
  }

  /** expand_string_with_args */
  function ExpandAll(w: World, counts: Counts, s: string, args: seq<string>): Result<string>
    decreases Budget(w.vars.Keys, counts), |s|, 2
  {
    match Expand(w, counts, s, args, false)
    case Err => Err
    case Ok(x) => Ok(x.out)
  }

  function ExpandEach(w: World, counts: Counts, parts: seq<string>, args: seq<string>, bound: nat)
    : (r: Result<seq<string>>)
    requires forall i :: 0 <= i < |parts| ==> |parts[i]| <= bound
    ensures r.Ok? ==> |r.value| == |parts|
    decreases Budget(w.vars.Keys, counts), bound, 3, |parts|
  {
    if parts == [] then Ok([])
    else
      match ExpandAll(w, counts, parts[0], args)
      case Err => Err
      case Ok(x) =>
        match ExpandEach(w, counts, parts[1..], args, bound)
        case Err => Err
        case Ok(xs) => Ok([x] + xs)
  }

  /** eval_clause */
  function EvalClause(w: World, counts: Counts, c: string, args: seq<string>): Result<string>
    decreases Budget(w.vars.Keys, counts), |c|, 4
  {
    var n := ArgNumber(c);
    if 0 < n <= |args| then Ok(args[n - 1])
    else
      var parts := SplitArgs(c, 0);
      if |parts| > MAX_ARGS then Err
      else
        match ExpandEach(w, counts, parts, args, |c|)
        case Err => Err
        case Ok(xs) => Call(w, counts, xs[0], xs[1..])
  }

  /** A variable, else a built-in function, else the environment. */
  function Call(w: World, counts: Counts, name: string, args: seq<string>): Result<string>
    decreases Budget(w.vars.Keys, counts), 0, 0
  {
    if name in w.vars then
      if (args == [] && Count(counts, name) > 0) || Headroom(counts, name) == 0 then Err
      else if !w.vars[name].recursive then Ok(w.vars[name].value)
      else
        EnterCosts(w.vars.Keys, counts, name);
        ExpandAll(w, Enter(counts, name), w.vars[name].value, args)
    else
      var b := Builtin(w, name, args);
      if b.Some? then b.value else Ok(FromEnv(w, name, args))
  }

  // ----- the counters can only forbid -----

  ghost predicate AtMost(c: Counts, d: Counts) {
    forall n :: Count(c, n) <= Count(d, n)
  }

  lemma EnterAtMost(c: Counts, d: Counts, name: string)
    requires AtMost(c, d)
    ensures AtMost(Enter(c, name), Enter(d, name))
  {
    forall n ensures Count(Enter(c, name), n) <= Count(Enter(d, name), n) {
      assert Count(c, n) <= Count(d, n);
    }
  }

  /** With smaller counters a successful expansion succeeds with the same text. */
  lemma {:induction false} ExpandFewer(w: World, c: Counts, d: Counts, s: string, args: seq<string>, token: bool)
    requires AtMost(c, d) && Expand(w, d, s, args, token).Ok?
    ensures Expand(w, c, s, args, token) == Expand(w, d, s, args, token)
    decreases Budget(w.vars.Keys, d), |s|, 1
  {
    if s != [] && s[0] == '$' {
      if |s| < 2 || s[1] != '(' {
        ExpandFewer(w, c, d, s[1..], args, token);
      } else {
        var q := FindClose(s[2..], 0).value;
        EvalClauseFewer(w, c, d, s[2..2 + q], args);
        ExpandFewer(w, c, d, s[3 + q..], args, token);
      }
    } else if !(s == [] || (token && IsTokenEnd(s[0]))) {
      ExpandFewer(w, c, d, s[1..], args, token);
    }
  }

  lemma {:induction false} ExpandEachFewer(w: World, c: Counts, d: Counts, parts: seq<string>,
                                           args: seq<string>, bound: nat)
    requires forall i :: 0 <= i < |parts| ==> |parts[i]| <= bound
    requires AtMost(c, d) && ExpandEach(w, d, parts, args, bound).Ok?
    ensures ExpandEach(w, c, parts, args, bound) == ExpandEach(w, d, parts, args, bound)
    decreases Budget(w.vars.Keys, d), bound, 3, |parts|
  {
    if parts != [] {
      ExpandFewer(w, c, d, parts[0], args, false);
      ExpandEachFewer(w, c, d, parts[1..], args, bound);
    }
  }

  lemma {:induction false} EvalClauseFewer(w: World, c: Counts, d: Counts, clause: string, args: seq<string>)
    requires AtMost(c, d) && EvalClause(w, d, clause, args).Ok?
    ensures EvalClause(w, c, clause, args) == EvalClause(w, d, clause, args)
    decreases Budget(w.vars.Keys, d), |clause|, 4
  {
    if !(0 < ArgNumber(clause) <= |args|) {
      var parts := SplitArgs(clause, 0);
      ExpandEachFewer(w, c, d, parts, args, |clause|);
      var xs := ExpandEach(w, d, parts, args, |clause|).value;
      CallFewer(w, c, d, xs[0], xs[1..]);
    }
  }

  lemma {:induction false} CallFewer(w: World, c: Counts, d: Counts, name: string, args: seq<string>)
    requires AtMost(c, d) && Call(w, d, name, args).Ok?
    ensures Call(w, c, name, args) == Call(w, d, name, args)
    decreases Budget(w.vars.Keys, d), 0, 0
  {
    assert Count(c, name) <= Count(d, name);
    if name in w.vars && w.vars[name].recursive {
      EnterCosts(w.vars.Keys, d, name);
      EnterAtMost(c, d, name);
      ExpandFewer(w, Enter(c, name), Enter(d, name), w.vars[name].value, args, false);
    }
  }

  // ----- recursion is always stopped -----

  predicate NoDollar(s: string) { '$' !in s }

  /** A name that is no reference, no list and no number. */
  predicate PlainName(n: string) {
    ArgNumber(n) == 0 && '$' !in n && '(' !in n && ')' !in n && ',' !in n
  }

  lemma {:induction false} TextExpands(w: World, c: Counts, a: string, s: string, args: seq<string>)
    requires NoDollar(a)
    ensures Expand(w, c, a + s, args, false) == Prepend(a, Expand(w, c, s, args, false))
  {
    if a == [] {
      assert a + s == s;
      PrependNothing(Expand(w, c, s, args, false));
    } else {
      assert (a + s)[1..] == a[1..] + s && (a + s)[0] == a[0];
      ExpandText(w, c, a + s, args, false);
      TextExpands(w, c, a[1..], s, args);
      hide Expand;
      PrependTwice([a[0]], a[1..], Expand(w, c, s, args, false));
      assert [a[0]] + a[1..] == a;
    }
  }

  /** Text without references stands for itself. */
  lemma PlainTextExpands(w: World, c: Counts, a: string, args: seq<string>)
    requires NoDollar(a)
    ensures ExpandAll(w, c, a, args) == Ok(a)
  {
    TextExpands(w, c, a, [], args);
    assert a + [] == a;
  }

  lemma {:induction false} CloseAfter(n: string, s: string)
    requires '(' !in n && ')' !in n
    ensures FindClose(n + ")" + s, 0) == Some(|n|)
  {
    if n == [] {
      assert n + ")" + s == ")" + s;
    } else {
      assert (n + ")" + s)[1..] == n[1..] + ")" + s;
      CloseAfter(n[1..], s);
    }
  }

  lemma {:induction false} OnePart(n: string)
    requires '(' !in n && ')' !in n && ',' !in n
    ensures SplitArgs(n, 0) == [n]
  {
    if n != [] {
      OnePart(n[1..]);
      assert [n[0]] + n[1..] == n;
    }
  }

  lemma {:induction false} TwoParts(n: string, x: string)
    requires '(' !in n && ')' !in n && ',' !in n && '(' !in x && ')' !in x && ',' !in x
    ensures SplitArgs(n + "," + x, 0) == [n, x]
  {
    if n == [] {
      assert n + "," + x == "," + x;
      OnePart(x);
    } else {
      assert (n + "," + x)[1..] == n[1..] + "," + x;
      TwoParts(n[1..], x);
      assert [n[0]] + n[1..] == n;
    }
  }

  /** Arguments without references are passed as they are. */
  lemma {:induction false} PlainPartsExpand(w: World, c: Counts, parts: seq<string>, args: seq<string>, bound: nat)
    requires forall i :: 0 <= i < |parts| ==> |parts[i]| <= bound && NoDollar(parts[i])
    ensures ExpandEach(w, c, parts, args, bound) == Ok(parts)
  {
    if parts != [] {
      PlainTextExpands(w, c, parts[0], args);
      PlainPartsExpand(w, c, parts[1..], args, bound);
      assert [parts[0]] + parts[1..] == parts;
    }
  }

  /** A reference that fails makes the whole text fail. */
  lemma ReferenceFails(w: World, c: Counts, a: string, clause: string, b: string, args: seq<string>)
    requires NoDollar(a) && '(' !in clause && ')' !in clause
    requires EvalClause(w, c, clause, args).Err?
    ensures ExpandAll(w, c, a + "$(" + clause + ")" + b, args).Err?
  {
    hide EvalClause, Expand, FindClose, Prepend;
    var s := "$(" + clause + ")" + b;
    assert a + "$(" + clause + ")" + b == a + s;
    TextExpands(w, c, a, s, args);
    assert s[0] == '$' && s[1] == '(' && s[2..] == clause + ")" + b;
    CloseAfter(clause, b);
    assert s[2..2 + |clause|] == clause;
    ReferenceStops(w, c, s, |clause|, args);
  }

  lemma ReferenceStops(w: World, c: Counts, s: string, q: nat, args: seq<string>)
    requires |s| >= 2 && s[0] == '$' && s[1] == '(' && FindClose(s[2..], 0) == Some(q)
    requires EvalClause(w, c, s[2..2 + q], args).Err?
    ensures Expand(w, c, s, args, false).Err?
  {
    hide EvalClause, ExpandAll, ExpandEach, Call, Budget, FindClose, Prepend;
  }

  /** A variable that refers to itself is an error. */
  lemma SelfReferenceFails(w: World, c: Counts, n: string, a: string, b: string)
    requires n in w.vars && w.vars[n] == Variable(a + "$(" + n + ")" + b, true)
    requires NoDollar(a) && PlainName(n)
    ensures Call(w, c, n, []).Err?
  {
    if Headroom(c, n) > 0 {
      EnterCosts(w.vars.Keys, c, n);
      var d := Enter(c, n);
      OnePart(n);
      PlainPartsExpand(w, d, [n], [], |n|);
      assert [n][1..] == [];
      assert EvalClause(w, d, n, []).Err?;
      ReferenceFails(w, d, a, n, b, []);
    }
  }

  /** So is a function that calls itself with an argument, however deep it may go first. */
  lemma {:induction false} RunawayFails(w: World, c: Counts, n: string, x: string, a: string, b: string,
                                        args: seq<string>)
    requires n in w.vars && w.vars[n] == Variable(a + "$(" + (n + "," + x) + ")" + b, true)
    requires NoDollar(a) && PlainName(n) && NoDollar(x) && '(' !in x && ')' !in x && ',' !in x
    requires ArgNumber(n + "," + x) == 0
    ensures Call(w, c, n, args).Err?
    decreases Headroom(c, n)
  {
    if Headroom(c, n) > 0 {
      EnterCosts(w.vars.Keys, c, n);
      var d, clause := Enter(c, n), n + "," + x;
      RunawayFails(w, d, n, x, a, b, [x]);
      TwoParts(n, x);
      PlainPartsExpand(w, d, [n, x], args, |clause|);
      assert [n, x][1..] == [x];
      hide Expand;
      hide Budget;
      assert EvalClause(w, d, clause, args) == Call(w, d, n, [x]);
      ReferenceFails(w, d, a, clause, b, args);
    }
  }

  // ----- the expander as it runs -----

  function AddPrefix(x: string, r: seq<string>): seq<string>
    requires r != []
  {
    [x + r[0]] + r[1..]
  }

  /** expand_dollar's search for the closing parenthesis. */
  method ScanClose(s: string) returns (r: Option<nat>)
    ensures r == FindClose(s, 0)
  {
    hide FindClose;
    var q, nest := 0, 0;
    assert s[0..] == s;
    while q < |s|
      invariant q <= |s|
      invariant FindClose(s, 0) == Later(q, FindClose(s[q..], nest))
    {
      CloseStep(s, q, nest);
      if s[q] == '(' {
        nest := nest + 1;
      } else if s[q] == ')' {
        if nest == 0 {
          return Some(q);
        }
        nest := nest - 1;
      }
      q := q + 1;
    }
    CloseNever(nest);
    assert s[q..] == [];
    r := None;
  }

  function Later(q: nat, r: Option<nat>): Option<nat> { if r.None? then None else Some(q + r.value) }

  lemma CloseStep(s: string, q: nat, nest: nat)
    requires q < |s|
    ensures s[q] == ')' && nest == 0 ==> FindClose(s[q..], nest) == Some(0)
    ensures !(s[q] == ')' && nest == 0) ==>
              var deeper := if s[q] == '(' then nest + 1 else if s[q] == ')' then nest - 1 else nest;
              Later(q, FindClose(s[q..], nest)) == Later(q + 1, FindClose(s[q + 1..], deeper))
  {
    assert s[q..][0] == s[q] && s[q..][1..] == s[q + 1..];
  }

  lemma CloseNever(nest: nat)
    ensures FindClose([], nest).None?
  {
  }

  /** The tokenising loop of eval_clause. */
  method Split(c: string) returns (parts: seq<string>)
    ensures parts == SplitArgs(c, 0)
  {
    hide SplitArgs;
    hide AddPrefix;
    parts := [];
    var prev, p, nest := 0, 0, 0;
    assert c[0..] == c && c[0..0] == [];
    EmptyPrefix(SplitArgs(c, 0));
    assert [] + SplitArgs(c, 0) == SplitArgs(c, 0);
    while p < |c|
      invariant prev <= p <= |c|
      invariant SplitArgs(c, 0) == parts + AddPrefix(c[prev..p], SplitArgs(c[p..], nest))
    {
      SplitStep(c, p, nest);
      if nest == 0 && c[p] == ',' {
        SplitAtComma(parts, c[prev..p], SplitArgs(c[p + 1..], nest));
        parts := parts + [c[prev..p]];
        prev := p + 1;
        assert c[p + 1..p + 1] == [];
      } else {
        var deeper := if c[p] == '(' then nest + 1 else if c[p] == ')' then nest - 1 else nest;
        assert c[prev..p + 1] == c[prev..p] + [c[p]];
        PrefixGrows(c[prev..p], c[p], SplitArgs(c[p + 1..], deeper));
        nest := deeper;
      }
      p := p + 1;
    }
    SplitEnd(c[prev..p], nest);
    assert c[p..] == [] && c[prev..p] == c[prev..];
    parts := parts + [c[prev..]];
  }

  lemma EmptyPrefix(r: seq<string>)
    requires r != []
    ensures AddPrefix([], r) == r
  {
    assert [] + r[0] == r[0];
  }

  lemma SplitEnd(x: string, nest: int)
    ensures AddPrefix(x, SplitArgs([], nest)) == [x]
  {
    assert x + [] == x;
  }

  lemma SplitStep(c: string, p: nat, nest: int)
    requires p < |c|
    ensures nest == 0 && c[p] == ',' ==> SplitArgs(c[p..], nest) == [[]] + SplitArgs(c[p + 1..], nest)
    ensures !(nest == 0 && c[p] == ',') ==>
              var deeper := if c[p] == '(' then nest + 1 else if c[p] == ')' then nest - 1 else nest;
              SplitArgs(c[p..], nest) == AddPrefix([c[p]], SplitArgs(c[p + 1..], deeper))
  {
    assert c[p..][1..] == c[p + 1..] && c[p..][0] == c[p];
  }

  lemma SplitAtComma(parts: seq<string>, x: string, r: seq<string>)
    requires r != []
    ensures parts + AddPrefix(x, [[]] + r) == parts + [x] + AddPrefix([], r)
  {
    assert ([[]] + r)[1..] == r;
    assert x + [] == x;
    EmptyPrefix(r);
    assert parts + ([x] + r) == parts + [x] + r;
  }

  lemma PrefixGrows(x: string, ch: char, r: seq<string>)
    requires r != []
    ensures AddPrefix(x, AddPrefix([ch], r)) == AddPrefix(x + [ch], r)
  {
    assert x + ([ch] + r[0]) == x + [ch] + r[0];
  }

  class Expander {
    const w: World
    var expCount: Counts

    constructor (w: World)
      ensures this.w == w && expCount == map[]
    {
      this.w := w;
      expCount := map[];
    }

    /** __expand_string with its cursor and output buffer. On success the counters are back
        where they were; an error leaves the program. */
    method ExpandString(s: string, args: seq<string>, token: bool) returns (r: Result<Scan>)
      modifies this
      ensures r == Expand(w, old(expCount), s, args, token)
      ensures r.Ok? ==> expCount == old(expCount)
      decreases Budget(w.vars.Keys, expCount), |s|, 1
    {
      hide Expand;
      hide EvalClause;
      hide Prepend;
      hide Budget;
      var p, out := 0, "";
      assert s[0..] == s;
      PrependNothing(Expand(w, expCount, s, args, token));
      while true
        invariant p <= |s| && expCount == old(expCount)
        invariant Prepend(out, Expand(w, expCount, s[p..], args, token)) == Expand(w, expCount, s, args, token)
        decreases |s| - p
      {
        ExpandStep(w, expCount, s, p, args, token);
        if p < |s| && s[p] == '$' {
          if p + 1 == |s| || s[p + 1] != '(' {
            PrependTwice(out, "$", Expand(w, expCount, s[p + 1..], args, token));
            out, p := out + "$", p + 1;
          } else {
            var close := ScanClose(s[p + 2..]);
            if close.None? {
              return Err;
            }
            var q := p + 2 + close.value;
            var x := EvaluateClause(s[p + 2..q], args);
            if x.Err? {
              return Err;
            }
            PrependTwice(out, x.value, Expand(w, expCount, s[q + 1..], args, token));
            out, p := out + x.value, q + 1;
          }
        } else if p == |s| || (token && IsTokenEnd(s[p])) {
          assert out + "" == out;
          return Ok(Scan(out, s[p..]));
        } else {
          PrependTwice(out, [s[p]], Expand(w, expCount, s[p + 1..], args, token));
          out, p := out + [s[p]], p + 1;
        }
      }
    }

    /** eval_clause */
    method EvaluateClause(c: string, args: seq<string>) returns (r: Result<string>)
      modifies this
      ensures r == EvalClause(w, old(expCount), c, args)
      ensures r.Ok? ==> expCount == old(expCount)
      decreases Budget(w.vars.Keys, expCount), |c|, 4
    {
      var n := ArgNumber(c);
      if 0 < n <= |args| {
        return Ok(args[n - 1]);
      }
      var parts := Split(c);
      if |parts| > MAX_ARGS {
        return Err;
      }
      ghost var counts := expCount;
      var xs: seq<string> := [];
      hide Expand;
      hide Budget;
      hide Call;
      assert parts[0..] == parts;
      AppendNone(ExpandEach(w, counts, parts, args, |c|));
      for i := 0 to |parts|
        invariant expCount == counts && |xs| == i
        invariant AppendEach(xs, ExpandEach(w, counts, parts[i..], args, |c|))
                  == ExpandEach(w, counts, parts, args, |c|)
      {
        assert parts[i..][1..] == parts[i + 1..] && parts[i..][0] == parts[i];
        var x := ExpandString(parts[i], args, false);
        if x.Err? {
          return Err;
        }
        AppendOne(xs, x.value.out, ExpandEach(w, counts, parts[i + 1..], args, |c|));
        xs := xs + [x.value.out];
      }
      assert parts[|parts|..] == [];
      assert xs + [] == xs;
      r := CallNamed(xs[0], xs[1..]);
    }

    /** variable_expand, then function_expand, then env_expand */
    method CallNamed(name: string, args: seq<string>) returns (r: Result<string>)
      modifies this
      ensures r == Call(w, old(expCount), name, args)
      ensures r.Ok? ==> expCount == old(expCount)
      decreases Budget(w.vars.Keys, expCount), 0, 0
    {
      hide Expand, EvalClause, ExpandEach, Budget, Builtin, FromEnv;
      if name !in w.vars {
        var b := Builtin(w, name, args);
        return if b.Some? then b.value else Ok(FromEnv(w, name, args));
      }
      var v := w.vars[name];
      if args == [] && Count(expCount, name) > 0 {
        return Err;
      }
      if Count(expCount, name) > MAX_DEPTH {
        return Err;
      }
      EnterCosts(w.vars.Keys, expCount, name);
      ghost var counts := expCount;
      var had := name in expCount;
      expCount := Enter(expCount, name);
      if v.recursive {
        var x := ExpandString(v.value, args, false);
        r := if x.Err? then Err else Ok(x.value.out);
      } else {
        r := Ok(v.value);
      }
      if r.Ok? {
        expCount := if had then expCount[name := expCount[name] - 1] else expCount - {name};
        assert expCount == counts;
      }
    }
  }

  /** One turn of the scanning loop. */
  lemma ExpandStep(w: World, c: Counts, s: string, p: nat, args: seq<string>, token: bool)
    requires p <= |s|
    ensures p < |s| && s[p] == '$' && (p + 1 == |s| || s[p + 1] != '(') ==>
              Expand(w, c, s[p..], args, token) == Prepend("$", Expand(w, c, s[p + 1..], args, token))
    ensures p + 1 < |s| && s[p] == '$' && s[p + 1] == '(' ==>
              match FindClose(s[p + 2..], 0)
              case None => Expand(w, c, s[p..], args, token).Err?
              case Some(n) =>
                var q := p + 2 + n;
                match EvalClause(w, c, s[p + 2..q], args)
                case Err => Expand(w, c, s[p..], args, token).Err?
                case Ok(x) => Expand(w, c, s[p..], args, token) == Prepend(x, Expand(w, c, s[q + 1..], args, token))
    ensures (p == |s| || (s[p] != '$' && token && IsTokenEnd(s[p]))) ==>
              Expand(w, c, s[p..], args, token) == Ok(Scan("", s[p..]))
    ensures p < |s| && s[p] != '$' && !(token && IsTokenEnd(s[p])) ==>
              Expand(w, c, s[p..], args, token) == Prepend([s[p]], Expand(w, c, s[p + 1..], args, token))
  {
    hide Expand, EvalClause, Budget, FindClose, IsTokenEnd, Prepend;
    var t := s[p..];
    ExpandText(w, c, t, args, token);
    if p < |s| {
      assert t[0] == s[p] && t[1..] == s[p + 1..];
      if t[0] == '$' && (|t| == 1 || t[1] != '(') { ExpandDollar(w, c, t, args, token); }
      if p + 1 < |s| {
        assert t[1] == s[p + 1] && t[2..] == s[p + 2..];
        if t[0] == '$' && t[1] == '(' { ExpandReference(w, c, t, args, token); }
        var close := FindClose(s[p + 2..], 0);
        if close.Some? {
          var q := p + 2 + close.value;
          assert t[2..2 + close.value] == s[p + 2..q] && t[3 + close.value..] == s[q + 1..];
        }
      }
    }
  }

  /** A text that does not start with a reference. */
  lemma ExpandText(w: World, c: Counts, t: string, args: seq<string>, token: bool)
    ensures (t == [] || (t[0] != '$' && token && IsTokenEnd(t[0]))) ==>
              Expand(w, c, t, args, token) == Ok(Scan("", t))
    ensures t != [] && t[0] != '$' && !(token && IsTokenEnd(t[0])) ==>
              Expand(w, c, t, args, token) == Prepend([t[0]], Expand(w, c, t[1..], args, token))
  {
    hide EvalClause, ExpandAll, ExpandEach, Call, Budget, FindClose, IsTokenEnd, Prepend;
  }

  lemma ExpandDollar(w: World, c: Counts, t: string, args: seq<string>, token: bool)
    requires t != [] && t[0] == '$' && (|t| == 1 || t[1] != '(')
    ensures Expand(w, c, t, args, token) == Prepend("$", Expand(w, c, t[1..], args, token))
  {
    hide EvalClause, ExpandAll, ExpandEach, Call, Budget, FindClose, IsTokenEnd, Prepend;
  }

  lemma ExpandReference(w: World, c: Counts, t: string, args: seq<string>, token: bool)
    requires |t| > 1 && t[0] == '$' && t[1] == '('
    ensures match FindClose(t[2..], 0)
            case None => Expand(w, c, t, args, token).Err?
            case Some(q) =>
              match EvalClause(w, c, t[2..2 + q], args)
              case Err => Expand(w, c, t, args, token).Err?
              case Ok(x) => Expand(w, c, t, args, token) == Prepend(x, Expand(w, c, t[3 + q..], args, token))
  {
    hide EvalClause, ExpandAll, ExpandEach, Call, Budget, FindClose, IsTokenEnd, Prepend;
  }

  lemma PrependNothing(r: Result<Scan>)
    ensures Prepend("", r) == r
  {
    if r.Ok? { assert "" + r.value.out == r.value.out; }
  }

  lemma PrependTwice(x: string, y: string, r: Result<Scan>)
    ensures Prepend(x, Prepend(y, r)) == Prepend(x + y, r)
  {
    if r.Ok? { assert x + (y + r.value.out) == x + y + r.value.out; }
  }

  function AppendEach(xs: seq<string>, r: Result<seq<string>>): Result<seq<string>> {
    if r.Err? then Err else Ok(xs + r.value)
  }

  lemma AppendNone(r: Result<seq<string>>)
    ensures AppendEach([], r) == r
  {
    if r.Ok? { assert [] + r.value == r.value; }
  }

  lemma AppendOne(xs: seq<string>, x: string, r: Result<seq<string>>)
    ensures AppendEach(xs + [x], r) == AppendEach(xs, if r.Err? then Err else Ok([x] + r.value))
  {
    if r.Ok? { assert xs + [x] + r.value == xs + ([x] + r.value); }
  }
}

/** The recursive-descent parser as pure functions (propcheck.cc,
    `parseTrue` ... `parseTopLevelExpr`).

    Every parse function takes the registry as it stands and a cursor into
    the line, and gives back the registry as it stands afterwards together
    with a `Parse`: the number of characters consumed and the tree built, or
    no match (the source's 0), or the fatal 33rd-variable error. Names
    registered during an attempt stay registered when the attempt later
    fails, as they do in the source's global vector. */
module Grammar {
  import opened Expressions
  import opened Text
  import opened Registry

  datatype Option<T> = None | Some(value: T)

  datatype Parse =
    | NoMatch
    | Match(len: nat, expr: Expr)
    | TooManyVariables

  datatype Step = Step(vars: Names, result: Parse)

  /** What every parse function promises about the step it takes at
      cursor `i`: a match consumes at least one and at most the remaining
      characters. */
  predicate Consumes(s: string, i: nat, st: Step) {
    st.result.Match? ==> 1 <= st.result.len && i + st.result.len <= |s|
  }

  /** What a step does to the registry `vars` it started from. */
  predicate Keeps(vars: Names, st: Step) {
    !st.result.TooManyVariables? ==>
      Valid(st.vars) && vars <= st.vars &&
      (st.result.Match? ==> VarsBelow(st.result.expr, |st.vars|))
  }

  /** Adds `k` skipped characters to a match. */
  function Skipped(p: Parse, k: nat): Parse {
    match p
    case Match(n, e) => Match(k + n, e)
    case _ => p
  }

  /** A step taken after `k` skipped characters, seen from before them. */
  function SkippedStep(st: Step, k: nat): Step {
    Step(st.vars, Skipped(st.result, k))
  }

  /** Skipping characters before a step keeps what the step promised, and
      a step from a registry that extends `vars` keeps `vars` too. */
  lemma SkippedKeeps(vars: Names, mid: Names, s: string, i: nat, j: nat, st: Step)
    requires i <= j && vars <= mid
    requires Consumes(s, j, st) && Keeps(mid, st)
    ensures Consumes(s, i, SkippedStep(st, j - i)) && Keeps(vars, SkippedStep(st, j - i))
  {
  }

  /** `parseTrue`: a single `T`, else the word "true". */
  function TrueLen(s: string, i: nat): nat {
    if At(s, i) == 'T' then 1 else LiteralLen(s, i, "true")
  }

  /** `parseFalse`: a single `F`, else the word "false". */
  function FalseLen(s: string, i: nat): nat {
    if At(s, i) == 'F' then 1 else LiteralLen(s, i, "false")
  }

  /** The first index at or after `j` that holds `]` or ends the string. */
  function ScanTo(s: string, j: nat): (c: nat)
    requires j <= |s|
    ensures j <= c <= |s|
    decreases |s| - j
  {
    if At(s, j) == ']' || At(s, j) == NUL then j else ScanTo(s, j + 1)
  }

  /** The scan passes neither `]` nor NUL, and stops at one of them. */
  lemma {:induction false} ScanToStops(s: string, j: nat)
    requires j <= |s|
    ensures forall k :: j <= k < ScanTo(s, j) ==> s[k] != ']' && s[k] != NUL
    ensures At(s, ScanTo(s, j)) == ']' || At(s, ScanTo(s, j)) == NUL
    decreases |s| - j
  {
    if At(s, j) != ']' && At(s, j) != NUL {
      ScanToStops(s, j + 1);
    }
  }

  /** Moves `e` back over trailing whitespace, not below `start`. */
  function TrimEnd(s: string, start: nat, e: nat): (end: nat)
    requires start <= e <= |s|
    ensures start <= end <= e
    decreases e
  {
    if e > start && IsSpace(s[e - 1]) then TrimEnd(s, start, e - 1) else e
  }

  /** What the backward move passes is whitespace, and it stops after a
      non-space or at `start`. */
  lemma {:induction false} TrimEndSpaces(s: string, start: nat, e: nat)
    requires start <= e <= |s|
    ensures forall k :: TrimEnd(s, start, e) <= k < e ==> IsSpace(s[k])
    ensures TrimEnd(s, start, e) > start ==> !IsSpace(s[TrimEnd(s, start, e) - 1])
    decreases e
  {
    if e > start && IsSpace(s[e - 1]) {
      TrimEndSpaces(s, start, e - 1);
    }
  }

  /** `parseVar`: `[`, optional whitespace, a name up to the next `]` with
      its trailing whitespace dropped, then `]`; the name is resolved in the
      registry. */
  function ParseVar(vars: Names, s: string, i: nat): (st: Step)
    requires Valid(vars) && i <= |s|
    ensures Consumes(s, i, st) && Keeps(vars, st)
  {
    if At(s, i) != '[' then Step(vars, NoMatch)
    else
      var start := i + 1 + WsRun(s, i + 1);
      var close := ScanTo(s, start);
      if At(s, close) != ']' then Step(vars, NoMatch)
      else
        var name := s[start..TrimEnd(s, start, close)];
        ResolveKeepsValid(vars, name);
        match Resolve(vars, name)
        case Overflow(vars') => Step(vars', TooManyVariables)
        case Resolved(vars', k) => Step(vars', Match(close + 1 - i, Var(k)))
  }

  /** `parseNot`: `!` or "not", then one expression. */
  function ParseNot(vars: Names, s: string, i: nat): (st: Step)
    requires Valid(vars) && i <= |s|
    ensures Consumes(s, i, st) && Keeps(vars, st)
    decreases |s| - i, 1
  {
    var n := OneOfLen(s, i, "!", "not");
    if n == 0 then Step(vars, NoMatch)
    else
      var operand := ParseExpr(vars, s, i + n);
      match operand.result
      case Match(m, e) => Step(operand.vars, Match(n + m, Not(e)))
      case _ => operand
  }

  /** The connectives `parseBinaryExpr` can build; `IfOp` is the
      implication with its operands swapped. */
  datatype Operator = AndOp | OrOp | XorOp | ThenOp | IfOp | IffOp

  /** The number of words in the operator table. */
  const TableSize: nat := 13

  /** Entry `k` of the operator table: the words `parseBinaryExpr` accepts,
      in the order it tests them, each with the connective it builds. */
  function Entry(k: nat): (string, Operator)
    requires k < TableSize
  {
    match k
    case 0 => ("and", AndOp)
    case 1 => ("&", AndOp)
    case 2 => ("or", OrOp)
    case 3 => ("|", OrOp)
    case 4 => ("xor", XorOp)
    case 5 => ("^", XorOp)
    case 6 => ("then", ThenOp)
    case 7 => ("implies", ThenOp)
    case 8 => ("=>", ThenOp)
    case 9 => ("if", IfOp)
    case 10 => ("<=", IfOp)
    case 11 => ("iff", IffOp)
    case _ => ("<=>", IffOp)
  }

  /** The set of operator words `parseBinaryExpr` accepts. */
  const Operators: set<string> :=
    {"and", "&", "or", "|", "xor", "^", "then", "implies", "=>", "if", "<=", "iff", "<=>"}

  /** The characters of the line from `a` up to `e` spell the word `w`
      (compared one character at a time, as string equality does). */
  predicate TokenIs(s: string, a: nat, e: nat, w: string) {
    e == a + |w| && MatchesFrom(s, a, w, 0)
  }

  /** The connective of the first entry at or after entry `k` of the table
      whose word the token from `a` up to `e` spells. */
  function LookupToken(s: string, a: nat, e: nat, k: nat): Option<Operator>
    requires k <= TableSize
    decreases TableSize - k, 1
  {
    if k == TableSize then None else LookupEntry(s, a, e, k)
  }

  /** Entry `k` of the lookup: its connective when the token spells its
      word, otherwise the lookup from the next entry on. */
  function LookupEntry(s: string, a: nat, e: nat, k: nat): Option<Operator>
    requires k < TableSize
    decreases TableSize - k, 0
  {
    if TokenIs(s, a, e, Entry(k).0) then Some(Entry(k).1)
    else LookupToken(s, a, e, k + 1)
  }

  /** The node connective `o` builds between operands `l` and `r`. */
  function Build(o: Operator, l: Expr, r: Expr): Expr {
    match o
    case AndOp => And(l, r)
    case OrOp => Or(l, r)
    case XorOp => Xor(l, r)
    case ThenOp => Implies(l, r)
    case IfOp => Implies(r, l)
    case IffOp => Iff(l, r)
  }

  /** A node built from operands over the first `n` variables is over the
      first `n` variables. */
  lemma BuildVarsBelow(o: Operator, l: Expr, r: Expr, n: nat)
    requires VarsBelow(l, n) && VarsBelow(r, n)
    ensures VarsBelow(Build(o, l, r), n)
  {
    match o
    case AndOp => assert VarsBelow(And(l, r), n);
    case OrOp => assert VarsBelow(Or(l, r), n);
    case XorOp => assert VarsBelow(Xor(l, r), n);
    case ThenOp => assert VarsBelow(Implies(l, r), n);
    case IfOp => assert VarsBelow(Implies(r, l), n);
    case IffOp => assert VarsBelow(Iff(l, r), n);
  }

  /** The operator table of `parseBinaryExpr` applied to the token from
      `a` up to `e`: the node built between operands `l` and `r`, or none
      for an unknown operator. */
  function ConnectiveAt(s: string, a: nat, e: nat, l: Expr, r: Expr): Option<Expr> {
    match LookupToken(s, a, e, 0)
    case None => None
    case Some(o) => Some(Build(o, l, r))
  }

  /** The operator table applied to the word `op`. */
  function Connective(op: string, l: Expr, r: Expr): Option<Expr> {
    ConnectiveAt(op, 0, |op|, l, r)
  }

  /** `parseBinaryExpr`: `(`, an expression, an operator token, an
      expression, `)`; the operator is looked up only once the closing
      parenthesis has been found. */
  function ParseBinary(vars: Names, s: string, i: nat): (st: Step)
    requires Valid(vars) && i <= |s|
    ensures Consumes(s, i, st) && Keeps(vars, st)
    decreases |s| - i, 1
  {
    var p := i + WsRun(s, i);
    if At(s, p) != '(' then Step(vars, NoMatch)
    else
      var a := p + 1 + WsRun(s, p + 1);
      var left := ParseExpr(vars, s, a);
      if !left.result.Match? then left
      else BinaryRest(vars, left.vars, s, i, a + left.result.len, left.result.expr)
  }

  /** The rest of `parseBinaryExpr` once the left operand `l` has been read
      up to `b`: the operator token, the right operand, `)` and the lookup. */
  function BinaryRest(vars0: Names, vars: Names, s: string, i: nat, b: nat, l: Expr): (st: Step)
    requires Valid(vars) && vars0 <= vars && VarsBelow(l, |vars|)
    requires i < b <= |s|
    ensures Consumes(s, i, st) && Keeps(vars0, st)
    decreases |s| - b, 4
  {
    var opStart := b + WsRun(s, b);
    var opEnd := opStart + OpRun(s, opStart);
    var c := opEnd + WsRun(s, opEnd);
    BinaryClose(vars0, vars, s, i, c, l, ParseExpr(vars, s, c), LookupToken(s, opStart, opEnd, 0))
  }

  /** The end of `parseBinaryExpr` once the right operand has been read
      from `c` as `right`: `)` after optional whitespace, then the
      connective `op` the table gives for the operator token, which is
      consulted only once the `)` has been found. */
  function BinaryClose(vars0: Names, vars: Names, s: string, i: nat, c: nat, l: Expr, right: Step,
                       op: Option<Operator>): (st: Step)
    requires Valid(vars) && vars0 <= vars && VarsBelow(l, |vars|)
    requires i < c <= |s|
    requires Consumes(s, c, right) && Keeps(vars, right)
    ensures Consumes(s, i, st) && Keeps(vars0, st)
  {
    if !right.result.Match? then right
    else
      var d := c + right.result.len;
      var q := d + WsRun(s, d);
      if At(s, q) != ')' then Step(right.vars, NoMatch)
      else
        match op
        case Some(o) =>
          VarsBelowGrows(l, |vars|, |right.vars|);
          BuildVarsBelow(o, l, right.result.expr, |right.vars|);
          Step(right.vars, Match(q + 1 - i, Build(o, l, right.result.expr)))
        case None => Step(right.vars, NoMatch)
  }

  /** `parseExpr`: skips whitespace, then tries a constant true, a constant
      false, a variable, a negation and a parenthesised binary expression,
      in that order; the registry left by a failed attempt is the one the
      next attempt starts from. */
  function ParseExpr(vars: Names, s: string, i: nat): (st: Step)
    requires Valid(vars) && i <= |s|
    ensures Consumes(s, i, st) && Keeps(vars, st)
    decreases |s| - i, 3
  {
    ExprAt(vars, s, i, i + WsRun(s, i))
  }

  /** The attempts of `parseExpr` once the whitespace from `i` up to `j`
      has been skipped. */
  function ExprAt(vars: Names, s: string, i: nat, j: nat): (st: Step)
    requires Valid(vars) && i <= j <= |s|
    ensures Consumes(s, i, st) && Keeps(vars, st)
    decreases |s| - j, 2
  {
    var t := TrueLen(s, j);
    if t != 0 then Step(vars, Match(j - i + t, True))
    else
      var f := FalseLen(s, j);
      if f != 0 then Step(vars, Match(j - i + f, False))
      else
        var v := ParseVar(vars, s, j);
        if !v.result.NoMatch? then
          SkippedKeeps(vars, vars, s, i, j, v);
          SkippedStep(v, j - i)
        else
          var n := ParseNot(v.vars, s, j);
          if !n.result.NoMatch? then
            SkippedKeeps(vars, v.vars, s, i, j, n);
            SkippedStep(n, j - i)
          else
            var b := ParseBinary(n.vars, s, j);
            assert vars <= n.vars;
            SkippedKeeps(vars, n.vars, s, i, j, b);
            SkippedStep(b, j - i)
  }

  /** A match that, after trailing whitespace, reaches the end of the line. */
  predicate FillsLine(s: string, p: Parse) {
    p.Match? && p.len <= |s| && At(s, p.len + WsRun(s, p.len)) == NUL
  }

  datatype Line =
    | Parsed(expr: Expr)
    | SyntaxError
    | VariableOverflow

  datatype TopStep = TopStep(vars: Names, line: Line)

  /** `parseTopLevelExpr`: the line is accepted when an expression fills
      it; otherwise the whole line is wrapped in one pair of parentheses
      and parsed once more, from the registry the first attempt left. */
  function ParseTopLevel(vars: Names, s: string): (t: TopStep)
    requires Valid(vars)
    ensures t.line != VariableOverflow ==> Valid(t.vars) && vars <= t.vars
    ensures t.line.Parsed? ==> VarsBelow(t.line.expr, |t.vars|)
  {
    var first := ParseExpr(vars, s, 0);
    if first.result.TooManyVariables? then TopStep(first.vars, VariableOverflow)
    else if FillsLine(s, first.result) then TopStep(first.vars, Parsed(first.result.expr))
    else
      var w := "(" + CStr(s) + ")";
      var second := ParseExpr(first.vars, w, 0);
      if second.result.TooManyVariables? then TopStep(second.vars, VariableOverflow)
      else if FillsLine(w, second.result) then TopStep(second.vars, Parsed(second.result.expr))
      else TopStep(second.vars, SyntaxError)
  }
}

/** Printing a formula in the fully parenthesised form the parser reads,
    and the round trip: the parser reads a printed formula back as the same
    tree, consuming exactly the printed text, whatever follows it, and
    without touching the registry (propcheck.cc:164-347).

    Constants print as `T` and `F`, a variable as its registered name in
    brackets, a negation as `!` before its operand, and a binary node as
    `(left word right)` with the first word of its row of the operator
    table. */
module Printer {
  import opened Expressions
  import opened Text
  import opened Registry
  import opened Grammar
  import opened ParserFacts

  /** A name that reads back as itself between brackets: it holds no `]`
      and no NUL, and has no whitespace at either end. */
  predicate PlainName(name: string) {
    (forall k :: 0 <= k < |name| ==> name[k] != ']' && name[k] != NUL) &&
    (name != [] ==> !IsSpace(name[0]) && !IsSpace(name[|name| - 1]))
  }

  /** Every registered name is plain. */
  predicate PlainNames(vars: Names) {
    forall k :: 0 <= k < |vars| ==> PlainName(vars[k])
  }

  /** The characters a printed formula starts with. */
  predicate Opens(c: char) {
    c == 'T' || c == 'F' || c == '[' || c == '!' || c == '('
  }

  /** `(l w r)`, with one space on each side of the word. */
  function Infix(l: string, w: string, r: string): (p: string)
    ensures |p| == |l| + |w| + |r| + 4
  {
    "(" + (l + (" " + (w + (" " + (r + ")")))))
  }

  /** The binary nodes. */
  predicate IsBinary(e: Expr) {
    e.And? || e.Or? || e.Xor? || e.Implies? || e.Iff?
  }

  /** The word a binary node is printed with: the first word of its row of
      the operator table. */
  function Word(e: Expr): (w: string)
    requires IsBinary(e)
    ensures w == "and" || w == "or" || w == "xor" || w == "then" || w == "iff"
  {
    match e
    case And(_, _) => "and"
    case Or(_, _) => "or"
    case Xor(_, _) => "xor"
    case Implies(_, _) => "then"
    case Iff(_, _) => "iff"
  }

  /** The formula `e` printed with the names of `vars`. */
  function Show(e: Expr, vars: Names): (p: string)
    requires VarsBelow(e, |vars|)
    ensures p != [] && Opens(p[0])
  {
    match e
    case True => "T"
    case False => "F"
    case Var(k) => "[" + vars[k] + "]"
    case Not(a) => "!" + Show(a, vars)
    case _ => Infix(Show(e.left, vars), Word(e), Show(e.right, vars))
  }

  /** The operands of a binary node over the first `n` variables are over
      the first `n` variables. */
  lemma OperandsBelow(e: Expr, n: nat)
    requires IsBinary(e) && VarsBelow(e, n)
    ensures VarsBelow(e.left, n) && VarsBelow(e.right, n)
  {
  }

  /** The table builds a binary node back from its word and operands. */
  lemma ConnectiveWord(e: Expr)
    requires IsBinary(e)
    ensures Connective(Word(e), e.left, e.right) == Some(e)
  {
    ConnectiveOrder(Word(e), e.left, e.right);
  }

  /** A plain name is its own trimmed form. */
  lemma TrimPlain(name: string)
    requires PlainName(name)
    ensures Trim(name) == name
  {
    assert TrimLeft(name) == name;
  }

  /** The pieces of a printed binary node, position by position. */
  lemma InfixParts(s: string, i: nat, l: string, w: string, r: string)
    requires StartsWith(s, i, Infix(l, w, r))
    ensures i < |s| && s[i] == '('
    ensures StartsWith(s, i + 1, l)
    ensures i + 1 + |l| < |s| && s[i + 1 + |l|] == ' '
    ensures StartsWith(s, i + 1 + |l| + 1, w)
    ensures i + 1 + |l| + 1 + |w| < |s| && s[i + 1 + |l| + 1 + |w|] == ' '
    ensures StartsWith(s, i + 1 + |l| + 2 + |w|, r)
    ensures i + 1 + |l| + 2 + |w| + |r| < |s| && s[i + 1 + |l| + 2 + |w| + |r|] == ')'
  {
    var j := i;
    StartsWithSplit(s, j, "(", l + (" " + (w + (" " + (r + ")")))));
    StartsWithAt(s, j, "(", 0);
    j := j + 1;
    StartsWithSplit(s, j, l, " " + (w + (" " + (r + ")"))));
    j := j + |l|;
    StartsWithSplit(s, j, " ", w + (" " + (r + ")")));
    StartsWithAt(s, j, " ", 0);
    j := j + 1;
    StartsWithSplit(s, j, w, " " + (r + ")"));
    j := j + |w|;
    StartsWithSplit(s, j, " ", r + ")");
    StartsWithAt(s, j, " ", 0);
    j := j + 1;
    StartsWithSplit(s, j, r, ")");
    j := j + |r|;
    StartsWithAt(s, j, ")", 0);
  }

  /** A printed formula starts with a character that opens an operand, so
      no whitespace is skipped in front of it. */
  lemma StartsOperand(s: string, i: nat, p: string)
    requires p != [] && Opens(p[0])
    requires StartsWith(s, i, p)
    ensures i < |s| && s[i] == p[0]
    ensures WsRun(s, i) == 0
  {
    StartsWithAt(s, i, p, 0);
  }

  /** One unfolding of `parseExpr`. */
  lemma ExprUnfold(vars: Names, s: string, i: nat)
    requires Valid(vars) && i <= |s|
    ensures ParseExpr(vars, s, i) ==
      (var j := i + WsRun(s, i);
       var t := TrueLen(s, j);
       if t != 0 then Step(vars, Match(j - i + t, True))
       else
         var f := FalseLen(s, j);
         if f != 0 then Step(vars, Match(j - i + f, False))
         else
           var v := ParseVar(vars, s, j);
           if !v.result.NoMatch? then SkippedStep(v, j - i)
           else
             var n := ParseNot(v.vars, s, j);
             if !n.result.NoMatch? then SkippedStep(n, j - i)
             else SkippedStep(ParseBinary(n.vars, s, j), j - i))
  {
  }

  /** At `[`, `parseExpr` reads what `parseVar` reads when that matches. */
  lemma ExprAtBracket(vars: Names, s: string, i: nat)
    requires Valid(vars) && i < |s| && s[i] == '['
    requires ParseVar(vars, s, i).result.Match?
    ensures ParseExpr(vars, s, i) == ParseVar(vars, s, i)
  {
    ExprUnfold(vars, s, i);
    FirstCharMismatch(s, i, "true");
    FirstCharMismatch(s, i, "false");
    assert WsRun(s, i) == 0;
  }

  /** At `!`, `parseExpr` reads what `parseNot` reads when that matches. */
  lemma ExprAtBang(vars: Names, s: string, i: nat)
    requires Valid(vars) && i < |s| && s[i] == '!'
    requires !ParseNot(vars, s, i).result.NoMatch?
    ensures ParseExpr(vars, s, i) == ParseNot(vars, s, i)
  {
    ExprUnfold(vars, s, i);
    FirstCharMismatch(s, i, "true");
    FirstCharMismatch(s, i, "false");
    assert WsRun(s, i) == 0;
  }

  /** At `(`, `parseExpr` reads what `parseBinaryExpr` reads. */
  lemma ExprIsBinary(vars: Names, s: string, i: nat)
    requires Valid(vars) && i < |s| && s[i] == '('
    ensures ParseExpr(vars, s, i) == ParseBinary(vars, s, i)
  {
    ExprUnfold(vars, s, i);
    FirstCharMismatch(s, i, "true");
    FirstCharMismatch(s, i, "false");
    assert WsRun(s, i) == 0;
    FirstCharMismatch(s, i, "!");
    FirstCharMismatch(s, i, "not");
  }

  /** The same, stated as what the match is. */
  lemma ExprReadsBinary(vars: Names, s: string, i: nat, n: nat, e: Expr)
    requires Valid(vars) && i < |s| && s[i] == '('
    requires var st := ParseBinary(vars, s, i);
             st.result.Match? && st.vars == vars && st.result.len == n && st.result.expr == e
    ensures var st := ParseExpr(vars, s, i);
            st.result.Match? && st.vars == vars && st.result.len == n && st.result.expr == e
  {
    ExprIsBinary(vars, s, i);
    StepsAlike(ParseExpr(vars, s, i), ParseBinary(vars, s, i));
  }

  /** The characters of a printed variable. */
  lemma VarText(s: string, i: nat, name: string)
    requires PlainName(name)
    requires StartsWith(s, i, "[" + name + "]")
    ensures i + 1 + |name| < |s|
    ensures s[i] == '[' && s[i + 1 + |name|] == ']'
    ensures forall m :: i < m < i + 1 + |name| ==> s[m] != ']' && s[m] != NUL
    ensures s[i + 1..i + 1 + |name|] == name
  {
    var t := "[" + name + "]";
    var close := i + 1 + |name|;
    StartsWithAt(s, i, t, 0);
    StartsWithAt(s, i, t, |name| + 1);
    forall m | 0 <= m < |name|
      ensures s[i + 1 + m] == name[m]
    {
      StartsWithAt(s, i, t, m + 1);
      assert t[m + 1] == name[m];
    }
    forall m | i < m < close
      ensures s[m] != ']' && s[m] != NUL
    {
      assert s[i + 1 + (m - i - 1)] == name[m - i - 1];
    }
    assert s[i + 1..close] == name;
  }

  /** `parseVar` reads a printed variable back as that variable. */
  lemma ParseVarShown(vars: Names, k: VarIndex, s: string, i: nat)
    requires Valid(vars) && PlainNames(vars) && k < |vars|
    requires StartsWith(s, i, "[" + vars[k] + "]")
    ensures var st := ParseVar(vars, s, i);
            st.result.Match? && st.vars == vars && st.result.len == |vars[k]| + 2 && st.result.expr == Var(k)
  {
    var name := vars[k];
    VarText(s, i, name);
    ParseVarReads(vars, s, i, i + 1 + |name|);
    TrimPlain(name);
    ResolveKeepsValid(vars, name);
    IndexOfDistinct(vars, k);
  }

  /** A printed variable is read back as that variable. */
  lemma ParseShowVar(vars: Names, k: VarIndex, s: string, i: nat)
    requires Valid(vars) && PlainNames(vars) && k < |vars|
    requires StartsWith(s, i, "[" + vars[k] + "]")
    ensures var st := ParseExpr(vars, s, i);
            st.result.Match? && st.vars == vars && st.result.len == |vars[k]| + 2 && st.result.expr == Var(k)
  {
    StartsWithAt(s, i, "[" + vars[k] + "]", 0);
    ParseVarShown(vars, k, s, i);
    ExprAtBracket(vars, s, i);
  }

  /** A printed negation is read back as the negation of what its operand
      reads back as. */
  lemma ParseShowNot(vars: Names, a: Expr, s: string, i: nat)
    requires Valid(vars) && VarsBelow(a, |vars|)
    requires StartsWith(s, i, "!" + Show(a, vars))
    requires i + 1 <= |s|
    requires var st := ParseExpr(vars, s, i + 1);
             st.result.Match? && st.vars == vars && st.result.len == |Show(a, vars)| && st.result.expr == a
    ensures var st := ParseExpr(vars, s, i);
            st.result.Match? && st.vars == vars && st.result.len == 1 + |Show(a, vars)| && st.result.expr == Not(a)
  {
    StartsWithSplit(s, i, "!", Show(a, vars));
    StartsWithAt(s, i, "!", 0);
    ParseNotReads(vars, s, i);
    ExprAtBang(vars, s, i);
  }

  /** Inside a printed binary node the operator word is read as the whole
      token. */
  lemma WordIsToken(s: string, b: nat, w: string)
    requires w == "and" || w == "or" || w == "xor" || w == "then" || w == "iff"
    requires b + 1 + |w| < |s| && s[b] == ' ' && s[b + 1 + |w|] == ' '
    requires StartsWith(s, b + 1, w)
    ensures WsRun(s, b) == 1
    ensures OpRun(s, b + 1) == |w|
    ensures OperatorAt(s, b) == w
  {
    StartsWithMeans(s, b + 1, w);
    assert s[b + 1..b + 1 + |w|] == w;
    forall j | b + 1 <= j < b + 1 + |w|
      ensures !EndsOperator(s, j)
    {
      assert s[j] == w[j - b - 1];
      assert At(s, j + 1) == if j + 1 < b + 1 + |w| then w[j + 1 - b - 1] else ' ';
    }
    OpRunStopsAt(s, b + 1, |w|);
    assert !IsSpace(s[b + 1]);
  }

  /** `parseBinaryExpr` at `(` with the left operand read right after it
      is the rest of it from the end of that operand. */
  lemma ParseBinaryOpen(vars: Names, s: string, i: nat, n: nat, l: Expr)
    requires Valid(vars) && i < |s| && s[i] == '('
    requires i + 1 + n <= |s| && WsRun(s, i + 1) == 0
    requires var left := ParseExpr(vars, s, i + 1);
             left.result.Match? && left.vars == vars && left.result.len == n && left.result.expr == l
    ensures ParseBinary(vars, s, i) == BinaryRest(vars, vars, s, i, i + 1 + n, l)
  {
    assert WsRun(s, i) == 0;
  }

  /** The same, stated as what the match is. */
  lemma BinaryReadsRest(vars: Names, s: string, i: nat, n: nat, l: Expr, k: nat, e: Expr)
    requires Valid(vars) && i < |s| && s[i] == '('
    requires i + 1 + n <= |s| && WsRun(s, i + 1) == 0
    requires var left := ParseExpr(vars, s, i + 1);
             left.result.Match? && left.vars == vars && left.result.len == n && left.result.expr == l
    requires VarsBelow(l, |vars|)
    requires var st := BinaryRest(vars, vars, s, i, i + 1 + n, l);
             st.result.Match? && st.vars == vars && st.result.len == k && st.result.expr == e
    ensures var st := ParseBinary(vars, s, i);
            st.result.Match? && st.vars == vars && st.result.len == k && st.result.expr == e
  {
    ParseBinaryOpen(vars, s, i, n, l);
    StepsAlike(ParseBinary(vars, s, i), BinaryRest(vars, vars, s, i, i + 1 + n, l));
  }

  /** The positions the rest of `parseBinaryExpr` computes when the word
      `w` sits between single spaces and the right operand, `n` characters
      long, is followed by `)`. */
  lemma RestPositions(s: string, b: nat, w: string, c: nat, n: nat)
    requires w == "and" || w == "or" || w == "xor" || w == "then" || w == "iff"
    requires c == b + 2 + |w| && c + n < |s|
    requires s[b] == ' ' && StartsWith(s, b + 1, w) && s[b + 1 + |w|] == ' '
    requires WsRun(s, c) == 0
    requires s[c + n] == ')'
    ensures OperandStart(s, b) == c
    ensures WsRun(s, c + n) == 0
    ensures OperatorAt(s, b) == w
  {
    WordIsToken(s, b, w);
    assert WsRun(s, b + 1 + |w|) == 1;
  }

  /** With the right operand at `c` read as `r`, `n` characters long, and
      `)` right after it, the right operand after `b` is closed. */
  lemma ClosedAt(vars: Names, s: string, b: nat, c: nat, n: nat, r: Expr)
    requires Valid(vars) && b <= |s| && OperandStart(s, b) == c
    requires c + n < |s| && WsRun(s, c + n) == 0 && s[c + n] == ')'
    requires var st := ParseExpr(vars, s, c);
             st.result.Match? && st.vars == vars && st.result.len == n && st.result.expr == r
    ensures ClosedAfter(vars, s, b)
    ensures var st := RightOperand(vars, s, b);
            st.result.Match? && st.vars == vars && st.result.len == n && st.result.expr == r
  {
  }

  /** Once the right operand after `b`, read from `c` as `r` and `n`
      characters long, is followed by `)` and the token is the word `w`,
      the rest of `parseBinaryExpr` reads up to and including the `)` the
      node the table builds for `w`, and leaves the registry as the right
      operand left it. */
  lemma RestFromRight(vars: Names, s: string, i: nat, b: nat, w: string, l: Expr, c: nat, n: nat, r: Expr)
    requires Valid(vars) && VarsBelow(l, |vars|)
    requires i < b <= |s|
    requires w in Operators && OperatorAt(s, b) == w
    requires OperandStart(s, b) == c && c + n <= |s| && WsRun(s, c + n) == 0
    requires ClosedAfter(vars, s, b)
    requires var st := RightOperand(vars, s, b);
             st.result.Match? && st.vars == vars && st.result.len == n && st.result.expr == r
    ensures Connective(w, l, r).Some?
    ensures var st := BinaryRest(vars, vars, s, i, b, l);
            st.result.Match? && st.vars == vars && st.result.len == c + n + 1 - i && st.result.expr == Connective(w, l, r).value
  {
    BinaryRestSpan(vars, vars, s, i, b, l);
    BinaryRestBuilds(vars, vars, s, i, b, l);
    ConnectiveKnown(w, l, r);
  }

  /** The rest of `parseBinaryExpr` once the word `w` after one space and
      the right operand at `c`, after another, have been read and `)`
      follows. */
  lemma BinaryRestAt(vars: Names, s: string, i: nat, b: nat, w: string, c: nat, n: nat, l: Expr, r: Expr)
    requires Valid(vars) && VarsBelow(l, |vars|)
    requires w == "and" || w == "or" || w == "xor" || w == "then" || w == "iff"
    requires i < b && c == b + 2 + |w| && c + n < |s|
    requires s[b] == ' ' && StartsWith(s, b + 1, w) && s[b + 1 + |w|] == ' '
    requires WsRun(s, c) == 0
    requires var st := ParseExpr(vars, s, c);
             st.result.Match? && st.vars == vars && st.result.len == n && st.result.expr == r
    requires s[c + n] == ')'
    ensures Connective(w, l, r).Some?
    ensures var st := BinaryRest(vars, vars, s, i, b, l);
            st.result.Match? && st.vars == vars && st.result.len == c + n + 1 - i && st.result.expr == Connective(w, l, r).value
  {
    RestPositions(s, b, w, c, n);
    ClosedAt(vars, s, b, c, n, r);
    RestFromRight(vars, s, i, b, w, l, c, n, r);
  }

  /** A printed binary node, its operands read back as `l` and `r`, is read
      back as the node the table builds for its word. */
  lemma ParseShowInfix(vars: Names, sl: string, w: string, sr: string, l: Expr, r: Expr, s: string, i: nat)
    requires Valid(vars) && VarsBelow(l, |vars|)
    requires sl != [] && Opens(sl[0]) && sr != [] && Opens(sr[0])
    requires w == "and" || w == "or" || w == "xor" || w == "then" || w == "iff"
    requires StartsWith(s, i, Infix(sl, w, sr))
    requires i + 1 + |sl| + 2 + |w| + |sr| < |s|
    requires var st := ParseExpr(vars, s, i + 1);
             st.result.Match? && st.vars == vars && st.result.len == |sl| && st.result.expr == l
    requires var st := ParseExpr(vars, s, i + 1 + |sl| + 2 + |w|);
             st.result.Match? && st.vars == vars && st.result.len == |sr| && st.result.expr == r
    ensures Connective(w, l, r).Some?
    ensures var st := ParseExpr(vars, s, i);
            st.result.Match? && st.vars == vars && st.result.len == |Infix(sl, w, sr)| && st.result.expr == Connective(w, l, r).value
  {
    InfixParts(s, i, sl, w, sr);
    StartsOperand(s, i + 1, sl);
    StartsOperand(s, i + 1 + |sl| + 2 + |w|, sr);
    ParseInfix(vars, s, i, |sl|, w, |sr|, l, r);
  }

  /** The same with the printed text given position by position: the left
      operand `n` characters long, the right one `m`. */
  lemma ParseInfix(vars: Names, s: string, i: nat, n: nat, w: string, m: nat, l: Expr, r: Expr)
    requires Valid(vars) && VarsBelow(l, |vars|)
    requires w == "and" || w == "or" || w == "xor" || w == "then" || w == "iff"
    requires i + 1 + n + 2 + |w| + m < |s|
    requires s[i] == '(' && WsRun(s, i + 1) == 0
    requires s[i + 1 + n] == ' ' && StartsWith(s, i + 1 + n + 1, w) && s[i + 1 + n + 1 + |w|] == ' '
    requires WsRun(s, i + 1 + n + 2 + |w|) == 0 && s[i + 1 + n + 2 + |w| + m] == ')'
    requires var st := ParseExpr(vars, s, i + 1);
             st.result.Match? && st.vars == vars && st.result.len == n && st.result.expr == l
    requires var st := ParseExpr(vars, s, i + 1 + n + 2 + |w|);
             st.result.Match? && st.vars == vars && st.result.len == m && st.result.expr == r
    ensures Connective(w, l, r).Some?
    ensures var st := ParseExpr(vars, s, i);
            st.result.Match? && st.vars == vars && st.result.len == n + |w| + m + 4 && st.result.expr == Connective(w, l, r).value
  {
    BinaryRestAt(vars, s, i, i + 1 + n, w, i + 1 + n + 2 + |w|, m, l, r);
    BinaryReadsRest(vars, s, i, n, l, i + 1 + n + 2 + |w| + m + 1 - i, Connective(w, l, r).value);
    ExprReadsBinary(vars, s, i, i + 1 + n + 2 + |w| + m + 1 - i, Connective(w, l, r).value);
  }

  /** The round trip: over plain registered names, the parser reads a
      printed formula back as the same tree, consuming exactly the printed
      text whatever follows it, and leaves the registry unchanged. */
  lemma {:induction false} ParseShow(vars: Names, e: Expr, s: string, i: nat)
    requires Valid(vars) && PlainNames(vars) && VarsBelow(e, |vars|)
    requires StartsWith(s, i, Show(e, vars))
    ensures var st := ParseExpr(vars, s, i);
            st.result.Match? && st.vars == vars && st.result.len == |Show(e, vars)| && st.result.expr == e
    decreases e, 1
  {
    StartsOperand(s, i, Show(e, vars));
    if e.Var? {
      ParseShowVar(vars, e.index, s, i);
    } else if e.Not? {
      StartsWithSplit(s, i, "!", Show(e.operand, vars));
      ParseShow(vars, e.operand, s, i + 1);
      ParseShowNot(vars, e.operand, s, i);
    } else if IsBinary(e) {
      ParseShowBinary(vars, e, s, i);
    }
  }

  /** The round trip for a binary node, from the round trips of its
      operands. */
  lemma {:induction false} ParseShowBinary(vars: Names, e: Expr, s: string, i: nat)
    requires Valid(vars) && PlainNames(vars) && VarsBelow(e, |vars|) && IsBinary(e)
    requires StartsWith(s, i, Infix(Show(e.left, vars), Word(e), Show(e.right, vars)))
    ensures var st := ParseExpr(vars, s, i);
            st.result.Match? && st.vars == vars && st.result.expr == e &&
            st.result.len == |Infix(Show(e.left, vars), Word(e), Show(e.right, vars))|
    decreases e, 0
  {
    var sl, w, sr := Show(e.left, vars), Word(e), Show(e.right, vars);
    OperandsBelow(e, |vars|);
    InfixParts(s, i, sl, w, sr);
    ParseShow(vars, e.left, s, i + 1);
    ParseShow(vars, e.right, s, i + 1 + |sl| + 2 + |w|);
    ParseShowInfix(vars, sl, w, sr, e.left, e.right, s, i);
    ConnectiveWord(e);
  }

  /** A line holding exactly a printed formula is accepted as that formula
      on the first attempt, and the registry is left as it was. */
  lemma ShowParses(vars: Names, e: Expr)
    requires Valid(vars) && PlainNames(vars) && VarsBelow(e, |vars|)
    ensures ParseTopLevel(vars, Show(e, vars)) == TopStep(vars, Parsed(e))
  {
    var s := Show(e, vars);
    MatchesFromMeans(s, 0, s, 0);
    ParseShow(vars, e, s, 0);
    TopLevelFirstAttempt(vars, s);
  }

  /** A printed formula holds no NUL, so it is a C string to its end. */
  lemma {:induction false} ShowNoNul(e: Expr, vars: Names)
    requires PlainNames(vars) && VarsBelow(e, |vars|)
    ensures NUL !in Show(e, vars)
  {
    if e.Var? {
      var name := vars[e.index];
      assert PlainName(name);
      assert Show(e, vars) == ['['] + name + [']'];
    } else if e.Not? {
      ShowNoNul(e.operand, vars);
      assert Show(e, vars) == ['!'] + Show(e.operand, vars);
    } else if IsBinary(e) {
      OperandsBelow(e, |vars|);
      ShowNoNul(e.left, vars);
      ShowNoNul(e.right, vars);
      InfixNoNul(Show(e.left, vars), Word(e), Show(e.right, vars));
    }
  }

  /** Bracketing NUL-free parts with a space on each side of the word adds
      no NUL. */
  lemma InfixNoNul(l: string, w: string, r: string)
    requires NUL !in l && NUL !in w && NUL !in r
    ensures NUL !in Infix(l, w, r)
  {
  }

  /** The layout of a binary formula printed without its outer
      parentheses: the left part comes first, the word one place after it,
      no NUL anywhere, and wrapping it in parentheses gives the printed
      form. */
  lemma BareText(s: string, l: string, w: string, r: string)
    requires s == l + " " + w + " " + r
    requires NUL !in l && NUL !in w && NUL !in r && w != []
    ensures s[..|l|] == l && |l| + 1 < |s| && s[|l| + 1] == w[0]
    ensures NUL !in s
    ensures "(" + s + ")" == Infix(l, w, r)
  {
    assert s == l + ([' '] + (w + ([' '] + r)));
  }

  /** On a binary formula printed without its outer parentheses, the first
      attempt reads the left operand alone, leaving the registry as it was,
      and the operator word that follows is not whitespace, so the line is
      not filled. */
  lemma BareFirstAttempt(vars: Names, e: Expr, s: string, sl: string, sr: string)
    requires Valid(vars) && PlainNames(vars) && VarsBelow(e, |vars|) && IsBinary(e)
    requires sl == Show(e.left, vars) && sr == Show(e.right, vars)
    requires s == sl + " " + Word(e) + " " + sr
    ensures var first := ParseExpr(vars, s, 0);
            first.result.Match? && first.vars == vars &&
            first.result.len == |sl| && !OnlySpaceFrom(s, |sl|)
  {
    OperandsBelow(e, |vars|);
    ShowNoNul(e.left, vars);
    ShowNoNul(e.right, vars);
    BareText(s, sl, Word(e), sr);
    StartsWithMeans(s, 0, sl);
    ParseShow(vars, e.left, s, 0);
    CLenNoNul(s, |sl|);
  }

  /** The retry reads a bare binary line, wrapped in parentheses, as the
      whole printed formula, leaving the registry as it was. */
  lemma BareRetry(vars: Names, e: Expr, s: string, sl: string, sr: string)
    requires Valid(vars) && PlainNames(vars) && VarsBelow(e, |vars|) && IsBinary(e)
    requires sl == Show(e.left, vars) && sr == Show(e.right, vars)
    requires s == sl + " " + Word(e) + " " + sr
    ensures var w := "(" + CStr(s) + ")";
            var second := ParseExpr(vars, w, 0);
            second.result.Match? && second.vars == vars && second.result.expr == e &&
            second.result.len == |w| && OnlySpaceFrom(w, |w|)
  {
    OperandsBelow(e, |vars|);
    ShowNoNul(e.left, vars);
    ShowNoNul(e.right, vars);
    BareText(s, sl, Word(e), sr);
    CLenNoNul(s, 0);
    var w := "(" + CStr(s) + ")";
    StartsWithMeans(w, 0, w);
    ParseShowBinary(vars, e, w, 0);
  }

  /** A binary formula written without its outer parentheses, such as
      `[P] and [Q]`, is accepted on the retry as that formula, and the
      registry is left as it was. */
  lemma BareBinaryParses(vars: Names, e: Expr, s: string)
    requires Valid(vars) && PlainNames(vars) && VarsBelow(e, |vars|) && IsBinary(e)
    requires s == Show(e.left, vars) + " " + Word(e) + " " + Show(e.right, vars)
    ensures ParseTopLevel(vars, s) == TopStep(vars, Parsed(e))
  {
    OperandsBelow(e, |vars|);
    var sl, sr := Show(e.left, vars), Show(e.right, vars);
    BareFirstAttempt(vars, e, s, sl, sr);
    BareRetry(vars, e, s, sl, sr);
    TopLevelRetry(vars, s);
  }
}

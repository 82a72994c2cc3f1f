/** What the parser promises, stated against independent definitions:
    the name `parseVar` registers is the bracket contents trimmed at both
    ends, a bracket that is never closed is no variable, `T` and `F` win
    over every other reading, the operator table, and the whole-line rule
    of `parseTopLevelExpr` (propcheck.cc:137-347). */
module ParserFacts {
  import opened Expressions
  import opened Text
  import opened Registry
  import opened Grammar

  /** `t` without its leading whitespace. */
  function TrimLeft(t: string): string
    decreases |t|
  {
    if t != [] && IsSpace(t[0]) then TrimLeft(t[1..]) else t
  }

  /** `t` without its trailing whitespace. */
  function TrimRight(t: string): string
    decreases |t|
  {
    if t != [] && IsSpace(t[|t| - 1]) then TrimRight(t[..|t| - 1]) else t
  }

  /** `t` without whitespace at either end. */
  function Trim(t: string): string {
    TrimRight(TrimLeft(t))
  }

  /** Skipping whitespace from `a`, when a non-space stands at `b`, stops
      at or before `b` and leaves what `TrimLeft` leaves of `s[a..b]`. */
  lemma {:induction false} TrimLeftRun(s: string, a: nat, b: nat)
    requires a <= b < |s| && !IsSpace(s[b])
    ensures a + WsRun(s, a) <= b
    ensures TrimLeft(s[a..b]) == s[a + WsRun(s, a)..b]
    decreases b - a
  {
    if a < b && IsSpace(s[a]) {
      TrimLeftRun(s, a + 1, b);
      assert s[a..b][1..] == s[a + 1..b];
    }
  }

  /** Moving back over trailing whitespace leaves what `TrimRight` leaves. */
  lemma {:induction false} TrimRightEnd(s: string, start: nat, e: nat)
    requires start <= e <= |s|
    ensures TrimRight(s[start..e]) == s[start..TrimEnd(s, start, e)]
    decreases e
  {
    if e > start && IsSpace(s[e - 1]) {
      TrimRightEnd(s, start, e - 1);
      assert s[start..e][..e - 1 - start] == s[start..e - 1];
    }
  }

  /** `parseVar` once its scan has found the `]` at `close`. */
  lemma ParseVarClosed(vars: Names, s: string, i: nat, close: nat)
    requires Valid(vars)
    requires i < |s| && s[i] == '['
    requires close < |s| && s[close] == ']'
    requires ScanTo(s, i + 1 + WsRun(s, i + 1)) == close
    ensures var start := i + 1 + WsRun(s, i + 1);
      ParseVar(vars, s, i) ==
        match Resolve(vars, s[start..TrimEnd(s, start, close)])
        case Overflow(vars') => Step(vars', TooManyVariables)
        case Resolved(vars', k) => Step(vars', Match(close + 1 - i, Var(k)))
  {
  }

  /** `parseVar` at `[` with a first `]` at `close` and no NUL before it:
      the name looked up is the bracket contents trimmed at both ends, and
      on success the count consumed runs up to and including the `]`. */
  lemma ParseVarReads(vars: Names, s: string, i: nat, close: nat)
    requires Valid(vars)
    requires i < close < |s| && s[i] == '[' && s[close] == ']'
    requires forall k :: i < k < close ==> s[k] != ']' && s[k] != NUL
    ensures ParseVar(vars, s, i) ==
      match Resolve(vars, Trim(s[i + 1..close]))
      case Overflow(vars') => Step(vars', TooManyVariables)
      case Resolved(vars', k) => Step(vars', Match(close + 1 - i, Var(k)))
  {
    TrimLeftRun(s, i + 1, close);
    var start := i + 1 + WsRun(s, i + 1);
    ScanToStops(s, start);
    assert ScanTo(s, start) == close;
    TrimRightEnd(s, start, close);
    assert Trim(s[i + 1..close]) == s[start..TrimEnd(s, start, close)];
    ParseVarClosed(vars, s, i, close);
  }

  /** `parseVar` does not match when no `]` follows the cursor before the
      line ends at `end` (the first NUL, or the end of the string). */
  lemma ParseVarUnclosed(vars: Names, s: string, i: nat, end: nat)
    requires Valid(vars)
    requires i < end <= |s|
    requires end < |s| ==> s[end] == NUL
    requires forall k :: i < k < end ==> s[k] != ']'
    ensures ParseVar(vars, s, i) == Step(vars, NoMatch)
  {
    if At(s, i) == '[' {
      WsRunSpaces(s, i + 1);
      var start := i + 1 + WsRun(s, i + 1);
      assert start <= end;
      ScanToStops(s, start);
      var close := ScanTo(s, start);
      assert close <= end;
    }
  }

  /** Whatever follows, a `T` or an `F` after the leading whitespace is
      read as the constant, one character long: `parseTrue` and
      `parseFalse` come first in `parseExpr`. */
  lemma ConstantLetter(vars: Names, s: string, i: nat)
    requires Valid(vars) && i <= |s|
    requires At(s, i + WsRun(s, i)) == 'T' || At(s, i + WsRun(s, i)) == 'F'
    ensures ParseExpr(vars, s, i) ==
      Step(vars, Match(WsRun(s, i) + 1, if At(s, i + WsRun(s, i)) == 'T' then True else False))
  {
  }

  /** The words "true" and "false" are read as the constants, four and
      five characters long, before anything else is tried. */
  lemma ConstantWord(vars: Names, s: string, i: nat)
    requires Valid(vars) && i <= |s|
    requires StartsWith(s, i + WsRun(s, i), "true") || StartsWith(s, i + WsRun(s, i), "false")
    ensures ParseExpr(vars, s, i) ==
      if StartsWith(s, i + WsRun(s, i), "true")
      then Step(vars, Match(WsRun(s, i) + 4, True))
      else Step(vars, Match(WsRun(s, i) + 5, False))
  {
    var j := i + WsRun(s, i);
    if StartsWith(s, j, "true") {
      StartsWithAt(s, j, "true", 0);
    } else {
      StartsWithAt(s, j, "false", 0);
      FirstCharMismatch(s, j, "true");
    }
  }

  /** A whole word spells `w` exactly when it is `w`. */
  lemma TokenIsWord(op: string, w: string)
    ensures TokenIs(op, 0, |op|, w) <==> op == w
  {
    MatchesFromMeans(op, 0, w, 0);
    if |op| == |w| && forall m :: 0 <= m < |w| ==> op[m] == w[m] {
      assert op == w;
    }
  }

  /** A token of the line spells `w` exactly when the slice it occupies is
      `w`. */
  lemma TokenIsSlice(s: string, a: nat, e: nat, w: string)
    requires a <= e <= |s|
    ensures TokenIs(s, a, e, w) <==> TokenIs(s[a..e], 0, e - a, w)
  {
    MatchesFromMeans(s, a, w, 0);
    MatchesFromMeans(s[a..e], 0, w, 0);
    if e == a + |w| {
      forall m | 0 <= m < |w|
        ensures s[a..e][m] == s[a + m]
      {
      }
    }
  }

  /** One entry of the lookup: the connective of entry `k` when the token
      spells its word, otherwise the lookup from entry `k + 1` on. */
  lemma LookupStep(s: string, a: nat, e: nat, k: nat)
    requires k < TableSize
    ensures LookupToken(s, a, e, k) ==
      if TokenIs(s, a, e, Entry(k).0) then Some(Entry(k).1) else LookupToken(s, a, e, k + 1)
  {
    assert LookupToken(s, a, e, k) == LookupEntry(s, a, e, k);
  }

  /** One entry of the lookup of the token from `a` up to `e`: entry `k`,
      the word `w` with the connective `o`, gives `o` when the token is
      `w`, otherwise the lookup goes on from entry `k + 1`. */
  lemma LookupWord(s: string, a: nat, e: nat, k: nat, w: string, o: Operator)
    requires a <= e <= |s| && k < TableSize && Entry(k) == (w, o)
    ensures LookupToken(s, a, e, k) ==
      if s[a..e] == w then Some(o) else LookupToken(s, a, e, k + 1)
  {
    LookupStep(s, a, e, k);
    TokenIsSlice(s, a, e, w);
    TokenIsWord(s[a..e], w);
  }

  /** Looking a token up in place is looking its slice up. */
  lemma {:induction false} LookupTokenSlice(s: string, a: nat, e: nat, k: nat)
    requires a <= e <= |s| && k <= TableSize
    ensures LookupToken(s, a, e, k) == LookupToken(s[a..e], 0, e - a, k)
    decreases TableSize - k
  {
    if k < TableSize {
      LookupStep(s, a, e, k);
      LookupStep(s[a..e], 0, e - a, k);
      TokenIsSlice(s, a, e, Entry(k).0);
      LookupTokenSlice(s, a, e, k + 1);
    }
  }

  /** Two consecutive entries `k` and `k + 1` of the table with the same
      connective `o`: a token that is either of their words gives `o`, any
      other token goes on to entry `k + 2`. */
  lemma LookupPair(s: string, a: nat, e: nat, k: nat, w1: string, w2: string, o: Operator)
    requires a <= e <= |s| && k + 1 < TableSize && Entry(k) == (w1, o) && Entry(k + 1) == (w2, o)
    ensures LookupToken(s, a, e, k) ==
      if s[a..e] == w1 || s[a..e] == w2 then Some(o) else LookupToken(s, a, e, k + 2)
  {
    LookupWord(s, a, e, k, w1, o);
    LookupWord(s, a, e, k + 1, w2, o);
  }

  /** The same for three consecutive entries. */
  lemma LookupTriple(s: string, a: nat, e: nat, k: nat, w1: string, w2: string, w3: string, o: Operator)
    requires a <= e <= |s| && k + 2 < TableSize
    requires Entry(k) == (w1, o) && Entry(k + 1) == (w2, o) && Entry(k + 2) == (w3, o)
    ensures LookupToken(s, a, e, k) ==
      if s[a..e] == w1 || s[a..e] == w2 || s[a..e] == w3 then Some(o) else LookupToken(s, a, e, k + 3)
  {
    LookupPair(s, a, e, k, w1, w2, o);
    LookupWord(s, a, e, k + 2, w3, o);
  }

  /** The whole table, row by row: "and"/"&", "or"/"|", "xor"/"^",
      "then"/"implies"/"=>", "if"/"<=" and "iff"/"<=>" are tested in that
      order, and any other token finds nothing. */
  lemma LookupWords(s: string, a: nat, e: nat)
    requires a <= e <= |s|
    ensures var op := s[a..e];
      LookupToken(s, a, e, 0) ==
      if op == "and" || op == "&" then Some(AndOp)
      else if op == "or" || op == "|" then Some(OrOp)
      else if op == "xor" || op == "^" then Some(XorOp)
      else if op == "then" || op == "implies" || op == "=>" then Some(ThenOp)
      else if op == "if" || op == "<=" then Some(IfOp)
      else if op == "iff" || op == "<=>" then Some(IffOp)
      else None
  {
    LookupPair(s, a, e, 0, "and", "&", AndOp);
    LookupPair(s, a, e, 2, "or", "|", OrOp);
    LookupPair(s, a, e, 4, "xor", "^", XorOp);
    LookupTriple(s, a, e, 6, "then", "implies", "=>", ThenOp);
    LookupPair(s, a, e, 9, "if", "<=", IfOp);
    LookupPair(s, a, e, 11, "iff", "<=>", IffOp);
  }

  /** The operator table applied to the token from `a` up to `e`, as the
      chain of word comparisons `parseBinaryExpr` makes. */
  lemma ConnectiveAtOrder(s: string, a: nat, e: nat, l: Expr, r: Expr)
    requires a <= e <= |s|
    ensures var op := s[a..e];
      ConnectiveAt(s, a, e, l, r) ==
      if op == "and" || op == "&" then Some(And(l, r))
      else if op == "or" || op == "|" then Some(Or(l, r))
      else if op == "xor" || op == "^" then Some(Xor(l, r))
      else if op == "then" || op == "implies" || op == "=>" then Some(Implies(l, r))
      else if op == "if" || op == "<=" then Some(Implies(r, l))
      else if op == "iff" || op == "<=>" then Some(Iff(l, r))
      else None
  {
    LookupWords(s, a, e);
  }

  /** The operator table as the chain of word comparisons `parseBinaryExpr`
      makes: "if" and "<=" build the implication with the operands
      swapped, every other word builds its node with the operands in
      written order, and a word outside the table builds nothing. */
  lemma ConnectiveOrder(op: string, l: Expr, r: Expr)
    ensures Connective(op, l, r) ==
      if op == "and" || op == "&" then Some(And(l, r))
      else if op == "or" || op == "|" then Some(Or(l, r))
      else if op == "xor" || op == "^" then Some(Xor(l, r))
      else if op == "then" || op == "implies" || op == "=>" then Some(Implies(l, r))
      else if op == "if" || op == "<=" then Some(Implies(r, l))
      else if op == "iff" || op == "<=>" then Some(Iff(l, r))
      else None
  {
    assert op[0..|op|] == op;
    ConnectiveAtOrder(op, 0, |op|, l, r);
  }

  /** The lookup from entry `k` on succeeds exactly when one of those
      entries spells the token. */
  lemma {:induction false} LookupTokenSome(s: string, a: nat, e: nat, k: nat)
    requires k <= TableSize
    ensures LookupToken(s, a, e, k).Some? <==>
      exists j :: k <= j < TableSize && TokenIs(s, a, e, Entry(j).0)
    decreases TableSize - k
  {
    if k < TableSize {
      LookupStep(s, a, e, k);
      LookupTokenSome(s, a, e, k + 1);
      if TokenIs(s, a, e, Entry(k).0) {
        assert k <= k < TableSize && TokenIs(s, a, e, Entry(k).0);
      }
    }
  }

  /** Every word of the table is an operator word. */
  lemma EntryIsOperator(j: nat)
    requires j < TableSize
    ensures Entry(j).0 in Operators
  {
  }

  /** Every operator word is the word of some entry of the table. */
  lemma OperatorIsEntry(w: string)
    requires w in Operators
    ensures exists j :: 0 <= j < TableSize && Entry(j).0 == w
  {
    assert Entry(0).0 == "and" && Entry(1).0 == "&" && Entry(2).0 == "or";
    assert Entry(3).0 == "|" && Entry(4).0 == "xor" && Entry(5).0 == "^";
    assert Entry(6).0 == "then" && Entry(7).0 == "implies" && Entry(8).0 == "=>";
    assert Entry(9).0 == "if" && Entry(10).0 == "<=" && Entry(11).0 == "iff";
    assert Entry(12).0 == "<=>";
  }

  /** A token that spells the word of an entry is an operator word. */
  lemma SpelledIsOperator(op: string, j: nat)
    requires j < TableSize && TokenIs(op, 0, |op|, Entry(j).0)
    ensures op in Operators
  {
    TokenIsWord(op, Entry(j).0);
    EntryIsOperator(j);
  }

  /** An operator word spells the word of some entry. */
  lemma OperatorIsSpelled(op: string)
    requires op in Operators
    ensures exists j :: 0 <= j < TableSize && TokenIs(op, 0, |op|, Entry(j).0)
  {
    OperatorIsEntry(op);
    var j :| 0 <= j < TableSize && Entry(j).0 == op;
    TokenIsWord(op, Entry(j).0);
  }

  /** The table builds a node exactly when the lookup finds the token. */
  lemma ConnectiveAtSome(s: string, a: nat, e: nat, l: Expr, r: Expr)
    ensures ConnectiveAt(s, a, e, l, r).Some? <==> LookupToken(s, a, e, 0).Some?
  {
  }

  /** Exactly the words of the table build a node. */
  lemma ConnectiveKnown(op: string, l: Expr, r: Expr)
    ensures Connective(op, l, r).Some? <==> op in Operators
  {
    ConnectiveAtSome(op, 0, |op|, l, r);
    LookupKnown(op);
  }

  /** Exactly the words of the table are found by the lookup. */
  lemma LookupKnown(op: string)
    ensures LookupToken(op, 0, |op|, 0).Some? <==> op in Operators
  {
    LookupTokenSome(op, 0, |op|, 0);
    if op in Operators {
      OperatorIsSpelled(op);
    }
    if LookupToken(op, 0, |op|, 0).Some? {
      var j :| 0 <= j < TableSize && TokenIs(op, 0, |op|, Entry(j).0);
      SpelledIsOperator(op, j);
    }
  }

  /** "l if r" and "l <= r" build the node "r then l" builds: they hold
      when `r` implies `l`. */
  lemma ConnectiveIfMeaning(op: string, l: Expr, r: Expr, x: Mask)
    requires op == "if" || op == "<="
    ensures Connective(op, l, r).Some? && Connective("then", r, l).Some?
    ensures Connective(op, l, r) == Connective("then", r, l)
    ensures Holds(Connective(op, l, r).value, x) == (Holds(r, x) ==> Holds(l, x))
  {
    ConnectiveOrder(op, l, r);
    ConnectiveOrder("then", r, l);
  }

  /** The operator token that starts after the whitespace following `b`. */
  function OperatorAt(s: string, b: nat): string
    requires b <= |s|
  {
    var opStart := b + WsRun(s, b);
    s[opStart..opStart + OpRun(s, opStart)]
  }

  /** The rest of `parseBinaryExpr` matches only when the operator table
      knows the token it read. */
  lemma BinaryRestLooksUp(vars0: Names, vars: Names, s: string, i: nat, b: nat, l: Expr)
    requires Valid(vars) && vars0 <= vars && VarsBelow(l, |vars|)
    requires i < b <= |s|
    ensures var opStart := b + WsRun(s, b);
            var opEnd := opStart + OpRun(s, opStart);
            BinaryRest(vars0, vars, s, i, b, l).result.Match? ==> LookupToken(s, opStart, opEnd, 0).Some?
  {
  }

  /** A token outside the table is not found by the lookup in place. */
  lemma UnknownToken(s: string, b: nat)
    requires b <= |s|
    requires OperatorAt(s, b) !in Operators
    ensures var opStart := b + WsRun(s, b);
            LookupToken(s, opStart, opStart + OpRun(s, opStart), 0).None?
  {
    var opStart := b + WsRun(s, b);
    var opEnd := opStart + OpRun(s, opStart);
    var op := OperatorAt(s, b);
    assert op == s[opStart..opEnd] && |op| == opEnd - opStart;
    LookupKnown(op);
    LookupTokenSlice(s, opStart, opEnd, 0);
  }

  /** Once the left operand is read, an operator token outside the table
      makes the binary form fail, however well the rest of it parses. */
  lemma UnknownOperator(vars0: Names, vars: Names, s: string, i: nat, b: nat, l: Expr)
    requires Valid(vars) && vars0 <= vars && VarsBelow(l, |vars|)
    requires i < b <= |s|
    requires OperatorAt(s, b) !in Operators
    ensures !BinaryRest(vars0, vars, s, i, b, l).result.Match?
  {
    UnknownToken(s, b);
    BinaryRestLooksUp(vars0, vars, s, i, b, l);
  }

  /** Where the right operand starts: after the whitespace following `b`,
      the operator token, and the whitespace after it. */
  function OperandStart(s: string, b: nat): (c: nat)
    requires b <= |s|
    ensures b <= c <= |s|
  {
    var opStart := b + WsRun(s, b);
    var opEnd := opStart + OpRun(s, opStart);
    opEnd + WsRun(s, opEnd)
  }

  /** The right operand read after the operator token that follows `b`. */
  function RightOperand(vars: Names, s: string, b: nat): Step
    requires Valid(vars) && b <= |s|
  {
    ParseExpr(vars, s, OperandStart(s, b))
  }

  /** The right operand after `b` is read and `)` follows it. */
  predicate ClosedAfter(vars: Names, s: string, b: nat)
    requires Valid(vars) && b <= |s|
  {
    var right := RightOperand(vars, s, b);
    right.result.Match? &&
    var d := OperandStart(s, b) + right.result.len;
    d <= |s| && At(s, d + WsRun(s, d)) == ')'
  }

  /** The end of `parseBinaryExpr` once its right operand `right` has
      matched and `)` follows: the registry is the one the operand left, a
      node is built exactly when the table knows the token, and a match
      ends just after the `)`. */
  lemma CloseMeans(vars0: Names, vars: Names, s: string, i: nat, c: nat, l: Expr, right: Step, op: Option<Operator>)
    requires Valid(vars) && vars0 <= vars && VarsBelow(l, |vars|)
    requires i < c <= |s|
    requires Consumes(s, c, right) && Keeps(vars, right)
    requires right.result.Match?
    requires At(s, c + right.result.len + WsRun(s, c + right.result.len)) == ')'
    ensures var st := BinaryClose(vars0, vars, s, i, c, l, right, op);
            var d := c + right.result.len;
            st.vars == right.vars && (op.Some? ==> st.result.Match?) &&
            (st.result.Match? ==> op.Some? && st.result.len == d + WsRun(s, d) + 1 - i &&
                                  st.result.expr == Build(op.value, l, right.result.expr))
  {
  }

  /** One unfolding of the rest of `parseBinaryExpr`. */
  lemma RestCloses(vars0: Names, vars: Names, s: string, i: nat, b: nat, l: Expr)
    requires Valid(vars) && vars0 <= vars && VarsBelow(l, |vars|)
    requires i < b <= |s|
    ensures var opStart := b + WsRun(s, b);
            BinaryRest(vars0, vars, s, i, b, l) ==
            BinaryClose(vars0, vars, s, i, OperandStart(s, b), l, RightOperand(vars, s, b),
                        LookupToken(s, opStart, opStart + OpRun(s, opStart), 0))
  {
  }

  /** Whatever the right operand gives, the rest of `parseBinaryExpr`
      leaves the registry the right operand left, its registrations
      included, and is fatal exactly when the right operand is. */
  lemma BinaryRestPasses(vars0: Names, vars: Names, s: string, i: nat, b: nat, l: Expr)
    requires Valid(vars) && vars0 <= vars && VarsBelow(l, |vars|)
    requires i < b <= |s|
    ensures var st := BinaryRest(vars0, vars, s, i, b, l);
            var right := RightOperand(vars, s, b);
            st.vars == right.vars && (st.result.TooManyVariables? <==> right.result.TooManyVariables?)
  {
    RestCloses(vars0, vars, s, i, b, l);
    var opStart := b + WsRun(s, b);
    StepsAlike(BinaryRest(vars0, vars, s, i, b, l),
               BinaryClose(vars0, vars, s, i, OperandStart(s, b), l, RightOperand(vars, s, b),
                           LookupToken(s, opStart, opStart + OpRun(s, opStart), 0)));
  }

  /** With the right operand read and `)` after it, the rest of
      `parseBinaryExpr` leaves the registry the right operand left, builds
      the node of the connective the table gives for the token, and a
      match consumes everything from the start of the binary form up to
      and including that `)`. */
  lemma BinaryRestCloses(vars0: Names, vars: Names, s: string, i: nat, b: nat, l: Expr)
    requires Valid(vars) && vars0 <= vars && VarsBelow(l, |vars|)
    requires i < b <= |s|
    requires ClosedAfter(vars, s, b)
    ensures var opStart := b + WsRun(s, b);
            var right := RightOperand(vars, s, b);
            var d := OperandStart(s, b) + right.result.len;
            var op := LookupToken(s, opStart, opStart + OpRun(s, opStart), 0);
            var st := BinaryRest(vars0, vars, s, i, b, l);
            st.vars == right.vars && (op.Some? ==> st.result.Match?) &&
            (st.result.Match? ==> op.Some? && st.result.len == d + WsRun(s, d) + 1 - i &&
                                  st.result.expr == Build(op.value, l, right.result.expr))
  {
    RestCloses(vars0, vars, s, i, b, l);
    CloseMeans(vars0, vars, s, i, OperandStart(s, b), l, RightOperand(vars, s, b),
               LookupToken(s, b + WsRun(s, b), b + WsRun(s, b) + OpRun(s, b + WsRun(s, b)), 0));
    StepsAlike(BinaryRest(vars0, vars, s, i, b, l),
               BinaryClose(vars0, vars, s, i, OperandStart(s, b), l, RightOperand(vars, s, b),
                           LookupToken(s, b + WsRun(s, b), b + WsRun(s, b) + OpRun(s, b + WsRun(s, b)), 0)));
  }

  /** With the right operand read and `)` after it, the rest of
      `parseBinaryExpr` builds what the table builds for the token. */
  lemma BinaryRestConnective(vars0: Names, vars: Names, s: string, i: nat, b: nat, l: Expr)
    requires Valid(vars) && vars0 <= vars && VarsBelow(l, |vars|)
    requires i < b <= |s|
    requires ClosedAfter(vars, s, b)
    ensures var opStart := b + WsRun(s, b);
            var st := BinaryRest(vars0, vars, s, i, b, l);
            var c := ConnectiveAt(s, opStart, opStart + OpRun(s, opStart), l, RightOperand(vars, s, b).result.expr);
            (st.result.Match? <==> c.Some?) && (st.result.Match? ==> c == Some(st.result.expr))
  {
    BinaryRestCloses(vars0, vars, s, i, b, l);
  }

  /** With the right operand read and `)` after it, the rest of
      `parseBinaryExpr` leaves the registry the right operand left, and a
      match consumes everything from the start of the binary form up to
      and including that `)`. */
  lemma BinaryRestSpan(vars0: Names, vars: Names, s: string, i: nat, b: nat, l: Expr)
    requires Valid(vars) && vars0 <= vars && VarsBelow(l, |vars|)
    requires i < b <= |s|
    requires ClosedAfter(vars, s, b)
    ensures var right := RightOperand(vars, s, b);
            var d := OperandStart(s, b) + right.result.len;
            var st := BinaryRest(vars0, vars, s, i, b, l);
            st.vars == right.vars && (st.result.Match? ==> st.result.len == d + WsRun(s, d) + 1 - i)
  {
    BinaryRestCloses(vars0, vars, s, i, b, l);
  }

  /** The table applied in place to the token after `b` is the table
      applied to the word it spells, and it builds a node exactly when that
      word is an operator word. */
  lemma OperatorAtConnective(s: string, b: nat, l: Expr, r: Expr)
    requires b <= |s|
    ensures var opStart := b + WsRun(s, b);
            ConnectiveAt(s, opStart, opStart + OpRun(s, opStart), l, r) == Connective(OperatorAt(s, b), l, r)
    ensures Connective(OperatorAt(s, b), l, r).Some? <==> OperatorAt(s, b) in Operators
  {
    var opStart := b + WsRun(s, b);
    var opEnd := opStart + OpRun(s, opStart);
    var op := OperatorAt(s, b);
    assert op == s[opStart..opEnd] && |op| == opEnd - opStart;
    LookupTokenSlice(s, opStart, opEnd, 0);
    ConnectiveKnown(op, l, r);
  }

  /** Once the right operand is read and `)` follows, the rest of
      `parseBinaryExpr` matches exactly when its operator token is a word
      of the table, and then builds the node the table gives for that word
      between the two operands. */
  lemma BinaryRestBuilds(vars0: Names, vars: Names, s: string, i: nat, b: nat, l: Expr)
    requires Valid(vars) && vars0 <= vars && VarsBelow(l, |vars|)
    requires i < b <= |s|
    requires ClosedAfter(vars, s, b)
    ensures var st := BinaryRest(vars0, vars, s, i, b, l);
            (st.result.Match? <==> OperatorAt(s, b) in Operators) &&
            (st.result.Match? ==> Connective(OperatorAt(s, b), l, RightOperand(vars, s, b).result.expr) == Some(st.result.expr))
  {
    BinaryRestConnective(vars0, vars, s, i, b, l);
    OperatorAtConnective(s, b, l, RightOperand(vars, s, b).result.expr);
  }

  /** The rest of `parseBinaryExpr` matches only when its right operand is
      read and `)` follows it. */
  lemma BinaryRestNeedsClose(vars0: Names, vars: Names, s: string, i: nat, b: nat, l: Expr)
    requires Valid(vars) && vars0 <= vars && VarsBelow(l, |vars|)
    requires i < b <= |s|
    ensures BinaryRest(vars0, vars, s, i, b, l).result.Match? ==> ClosedAfter(vars, s, b)
  {
    RestCloses(vars0, vars, s, i, b, l);
  }

  /** `parseBinaryExpr` matches only when `(` follows the leading
      whitespace and the left operand is read after it. Without the `(`
      nothing is read and the registry is untouched; when the left operand
      does not match, its outcome, a fatal one included, and its
      registrations are what the form gives. */
  lemma ParseBinaryOpens(vars: Names, s: string, i: nat)
    requires Valid(vars) && i <= |s|
    ensures var p := i + WsRun(s, i);
            ParseBinary(vars, s, i).result.Match? ==>
              p < |s| && At(s, p) == '(' && ParseExpr(vars, s, p + 1 + WsRun(s, p + 1)).result.Match?
    ensures var p := i + WsRun(s, i);
            At(s, p) != '(' ==> ParseBinary(vars, s, i) == Step(vars, NoMatch)
    ensures var p := i + WsRun(s, i);
            At(s, p) == '(' && !ParseExpr(vars, s, p + 1 + WsRun(s, p + 1)).result.Match? ==>
              ParseBinary(vars, s, i) == ParseExpr(vars, s, p + 1 + WsRun(s, p + 1))
  {
  }

  /** Once `(` and the left operand, `n` characters long, have been read
      from `a` as `l`, leaving the registry `lv`, `parseBinaryExpr`
      matches exactly when the right operand is read after the operator
      token, `)` follows it, and the token is one of the operator words. A
      match then holds the node that word builds from the two operands;
      where it ends is `BinaryRestCloses`. Match or not, the registry is
      the one the right operand left, and the form is fatal exactly when
      the right operand is. */
  lemma ParseBinaryReads(vars: Names, s: string, i: nat, a: nat, lv: Names, n: nat, l: Expr)
    requires Valid(vars) && i <= |s|
    requires At(s, i + WsRun(s, i)) == '('
    requires a == i + WsRun(s, i) + 1 + WsRun(s, i + WsRun(s, i) + 1)
    requires var left := ParseExpr(vars, s, a);
             left.result.Match? && left.vars == lv && left.result.len == n && left.result.expr == l
    ensures i < a + n <= |s| && Valid(lv)
    ensures var st := ParseBinary(vars, s, i);
            var right := RightOperand(lv, s, a + n);
            st.vars == right.vars && (st.result.TooManyVariables? <==> right.result.TooManyVariables?)
    ensures var b := a + n;
            var st := ParseBinary(vars, s, i);
            (st.result.Match? <==> ClosedAfter(lv, s, b) && OperatorAt(s, b) in Operators) &&
            (st.result.Match? ==>
               var right := RightOperand(lv, s, b);
               Connective(OperatorAt(s, b), l, right.result.expr) == Some(st.result.expr))
  {
    LeftOperandRead(vars, s, i, a, lv, n, l);
    var rest := BinaryRest(vars, lv, s, i, a + n, l);
    ParseBinaryRest(vars, s, i, a, ParseExpr(vars, s, a), rest);
    StepsAlike(ParseBinary(vars, s, i), rest);
    BinaryRestReads(vars, lv, s, i, a + n, l, rest);
  }

  /** The left operand of `parseBinaryExpr`, read after `(`, ends within
      the line and leaves a valid, grown registry covering its variables. */
  lemma LeftOperandRead(vars: Names, s: string, i: nat, a: nat, lv: Names, n: nat, l: Expr)
    requires Valid(vars) && i <= |s|
    requires At(s, i + WsRun(s, i)) == '('
    requires a == i + WsRun(s, i) + 1 + WsRun(s, i + WsRun(s, i) + 1)
    requires var left := ParseExpr(vars, s, a);
             left.result.Match? && left.vars == lv && left.result.len == n && left.result.expr == l
    ensures i < a + n <= |s| && Valid(lv) && vars <= lv && VarsBelow(l, |lv|)
  {
  }

  /** `parseBinaryExpr` once `(` and the left operand `left` have been
      read is the rest of it, `rest`, from the end of that operand. */
  lemma ParseBinaryRest(vars: Names, s: string, i: nat, a: nat, left: Step, rest: Step)
    requires Valid(vars) && i <= |s|
    requires At(s, i + WsRun(s, i)) == '('
    requires a == i + WsRun(s, i) + 1 + WsRun(s, i + WsRun(s, i) + 1)
    requires left == ParseExpr(vars, s, a) && left.result.Match?
    requires i < a + left.result.len <= |s|
    requires Valid(left.vars) && vars <= left.vars && VarsBelow(left.result.expr, |left.vars|)
    requires rest == BinaryRest(vars, left.vars, s, i, a + left.result.len, left.result.expr)
    ensures ParseBinary(vars, s, i) == rest
  {
  }

  /** What the rest of `parseBinaryExpr` gives from the end `b` of the
      left operand `l`, stated of any step `st` equal to it. */
  lemma BinaryRestReads(vars0: Names, vars: Names, s: string, i: nat, b: nat, l: Expr, st: Step)
    requires Valid(vars) && vars0 <= vars && VarsBelow(l, |vars|)
    requires i < b <= |s|
    requires st == BinaryRest(vars0, vars, s, i, b, l)
    ensures st.vars == RightOperand(vars, s, b).vars
    ensures st.result.TooManyVariables? <==> RightOperand(vars, s, b).result.TooManyVariables?
    ensures st.result.Match? <==> ClosedAfter(vars, s, b) && OperatorAt(s, b) in Operators
    ensures st.result.Match? ==>
              var right := RightOperand(vars, s, b);
              var d := OperandStart(s, b) + right.result.len;
              st.vars == right.vars && st.result.len == d + WsRun(s, d) + 1 - i &&
              Connective(OperatorAt(s, b), l, right.result.expr) == Some(st.result.expr)
  {
    BinaryRestPasses(vars0, vars, s, i, b, l);
    BinaryRestNeedsClose(vars0, vars, s, i, b, l);
    if ClosedAfter(vars, s, b) {
      BinaryRestCloses(vars0, vars, s, i, b, l);
      BinaryRestBuilds(vars0, vars, s, i, b, l);
    }
  }

  /** Two equal steps have the same registry and the same result. */
  lemma StepsAlike(x: Step, y: Step)
    requires x == y
    ensures x.vars == y.vars && x.result.Match? == y.result.Match?
    ensures x.result.TooManyVariables? == y.result.TooManyVariables?
    ensures x.result.Match? ==> x.result.len == y.result.len && x.result.expr == y.result.expr
  {
  }

  /** `parseNot` matches exactly when the line continues with `!` or, failing
      that, with "not", and an expression parses right after that prefix;
      the node is then the negation of that expression, and the count
      consumed adds the prefix's length. */
  lemma ParseNotReads(vars: Names, s: string, i: nat)
    requires Valid(vars) && i <= |s|
    ensures var k := if StartsWith(s, i, "!") then 1 else if StartsWith(s, i, "not") then 3 else 0;
            i + k <= |s| &&
            (ParseNot(vars, s, i).result.Match? <==> k != 0 && ParseExpr(vars, s, i + k).result.Match?) &&
            (ParseNot(vars, s, i).result.Match? ==>
              ParseNot(vars, s, i).result ==
                Match(k + ParseExpr(vars, s, i + k).result.len, Not(ParseExpr(vars, s, i + k).result.expr)))
    ensures var k := if StartsWith(s, i, "!") then 1 else if StartsWith(s, i, "not") then 3 else 0;
            i + k <= |s| &&
            ParseNot(vars, s, i).vars == (if k == 0 then vars else ParseExpr(vars, s, i + k).vars) &&
            (ParseNot(vars, s, i).result.TooManyVariables? <==>
               k != 0 && ParseExpr(vars, s, i + k).result.TooManyVariables?)
  {
    StartsWithMeans(s, i, "!");
    StartsWithMeans(s, i, "not");
  }

  /** Nothing but whitespace from `n` up to the end of the C string. */
  predicate OnlySpaceFrom(s: string, n: nat)
    requires n <= |s|
  {
    forall k :: n <= k < CLen(s, n) ==> IsSpace(s[k])
  }

  /** The test `parseTopLevelExpr` applies after a parse, skip whitespace
      and look for the terminator, accepts exactly the matches followed by
      nothing but whitespace. */
  lemma FillsLineMeans(s: string, p: Parse)
    ensures FillsLine(s, p) <==> p.Match? && p.len <= |s| && OnlySpaceFrom(s, p.len)
  {
    if p.Match? && p.len <= |s| {
      var n := p.len;
      WsRunSpaces(s, n);
      CLenStops(s, n);
      var e := n + WsRun(s, n);
      if OnlySpaceFrom(s, n) {
        assert e <= CLen(s, n);
      }
    }
  }

  /** A first parse followed by nothing but whitespace is the line's
      formula, with the registry it left. */
  lemma TopLevelFirstAttempt(vars: Names, s: string)
    requires Valid(vars)
    requires ParseExpr(vars, s, 0).result.Match?
    requires OnlySpaceFrom(s, ParseExpr(vars, s, 0).result.len)
    ensures ParseTopLevel(vars, s) ==
      TopStep(ParseExpr(vars, s, 0).vars, Parsed(ParseExpr(vars, s, 0).result.expr))
  {
    FillsLineMeans(s, ParseExpr(vars, s, 0).result);
  }

  /** When the first parse does not fill the line (and was not fatal), the
      outcome is that of exactly one more parse, of the line wrapped in
      parentheses, started from the registry the failed first attempt
      left; its registrations stay. */
  lemma TopLevelRetry(vars: Names, s: string)
    requires Valid(vars)
    requires !ParseExpr(vars, s, 0).result.TooManyVariables?
    requires !(ParseExpr(vars, s, 0).result.Match? && OnlySpaceFrom(s, ParseExpr(vars, s, 0).result.len))
    ensures var first := ParseExpr(vars, s, 0);
            var w := "(" + CStr(s) + ")";
            var second := ParseExpr(first.vars, w, 0);
            var t := ParseTopLevel(vars, s);
            t.vars == second.vars &&
            (t.line.Parsed? <==> second.result.Match? && OnlySpaceFrom(w, second.result.len)) &&
            (t.line.Parsed? ==> t.line.expr == second.result.expr) &&
            (t.line.VariableOverflow? <==> second.result.TooManyVariables?) &&
            (!t.line.VariableOverflow? ==> vars <= first.vars <= t.vars)
  {
    var first := ParseExpr(vars, s, 0);
    var w := "(" + CStr(s) + ")";
    FillsLineMeans(s, first.result);
    var second := ParseExpr(first.vars, w, 0);
    FillsLineMeans(w, second.result);
  }
}

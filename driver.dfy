/** The body of `main` once the file is open (propcheck.cc:364-428): the
    lines are filtered and parsed in order into propositions, each parsed
    from the registry the previous lines left; a syntax error stops the
    run with its line number; no proposition at all is an error; otherwise
    the masks up to the bound of the registered variables are enumerated.

    The file is given as its sequence of lines. */
module Driver {
  import opened Expressions
  import opened Text
  import opened Registry
  import opened Grammar
  import opened Engine

  /** A line `main` skips: one starting with `//`, or one holding nothing
      but whitespace. */
  predicate IsSkipped(line: string) {
    (At(line, 0) == '/' && At(line, 1) == '/') || At(line, WsRun(line, 0)) == NUL
  }

  /** The lines that are not skipped, in order. */
  function Kept(lines: seq<string>): (kept: seq<string>)
    ensures |kept| <= |lines|
    ensures forall k :: 0 <= k < |kept| ==> !IsSkipped(kept[k])
  {
    if lines == [] then []
    else if IsSkipped(lines[0]) then Kept(lines[1..])
    else [lines[0]] + Kept(lines[1..])
  }

  /** `idx[k]` is the position in `lines` of `kept[k]`. */
  predicate PositionsOf(lines: seq<string>, kept: seq<string>, idx: seq<nat>) {
    |idx| == |kept| &&
    forall k :: 0 <= k < |idx| ==> idx[k] < |lines| && kept[k] == lines[idx[k]]
  }

  /** The positions in `idx` increase strictly. */
  predicate Increasing(idx: seq<nat>) {
    forall k, m :: 0 <= k < m < |idx| ==> idx[k] < idx[m]
  }

  /** Every line of `lines` from position `from` on that is not skipped
      has its position in `idx`. */
  predicate CoversFrom(lines: seq<string>, idx: seq<nat>, from: nat) {
    forall j :: from <= j < |lines| && !IsSkipped(lines[j]) ==> j in idx
  }

  /** `idx` lists, in increasing order, the positions in `lines` of the
      lines in `kept`, and every line that is not skipped is among them. */
  predicate KeptAt(lines: seq<string>, kept: seq<string>, idx: seq<nat>) {
    PositionsOf(lines, kept, idx) && Increasing(idx) && CoversFrom(lines, idx, 0)
  }

  /** Every position in `idx`, moved one line further. */
  function Shifted(idx: seq<nat>): (r: seq<nat>)
    ensures |r| == |idx|
    ensures forall k :: 0 <= k < |idx| ==> r[k] == idx[k] + 1
  {
    if idx == [] then [] else [idx[0] + 1] + Shifted(idx[1..])
  }

  /** The positions of the kept lines of `lines[1..]`, moved one line
      further, are positions in `lines` of the same kept lines. */
  lemma ShiftedPositions(lines: seq<string>, rest: seq<nat>)
    requires lines != []
    requires PositionsOf(lines[1..], Kept(lines[1..]), rest)
    ensures PositionsOf(lines, Kept(lines[1..]), Shifted(rest))
  {
  }

  /** Moving every position one line further keeps their order. */
  lemma ShiftedIncreasing(rest: seq<nat>)
    requires Increasing(rest)
    ensures Increasing(Shifted(rest))
  {
  }

  /** The moved positions cover the lines after the first. */
  lemma ShiftedCovers(lines: seq<string>, rest: seq<nat>)
    requires lines != []
    requires CoversFrom(lines[1..], rest, 0)
    ensures CoversFrom(lines, Shifted(rest), 1)
  {
    var shifted := Shifted(rest);
    forall j | 1 <= j < |lines| && !IsSkipped(lines[j])
      ensures j in shifted
    {
      assert lines[1..][j - 1] == lines[j];
      var k :| 0 <= k < |rest| && rest[k] == j - 1;
      assert shifted[k] == j;
    }
  }

  /** The positions of the kept lines of `lines[1..]`, moved one line
      further, are those of the kept lines of `lines` when its first line
      is skipped. */
  lemma KeptAtSkipped(lines: seq<string>, rest: seq<nat>)
    requires lines != [] && IsSkipped(lines[0])
    requires KeptAt(lines[1..], Kept(lines[1..]), rest)
    ensures KeptAt(lines, Kept(lines), Shifted(rest))
  {
    ShiftedPositions(lines, rest);
    ShiftedIncreasing(rest);
    ShiftedCovers(lines, rest);
    assert Kept(lines) == Kept(lines[1..]);
  }

  /** With a first line that is kept in front, position 0 followed by the
      moved positions of the rest locates every kept line. */
  lemma FrontPositions(lines: seq<string>, rest: seq<nat>)
    requires lines != [] && !IsSkipped(lines[0])
    requires PositionsOf(lines, Kept(lines[1..]), Shifted(rest))
    ensures PositionsOf(lines, Kept(lines), [0] + Shifted(rest))
  {
    var idx := [0] + Shifted(rest);
    var kept := Kept(lines);
    assert kept == [lines[0]] + Kept(lines[1..]);
    forall k | 0 <= k < |idx|
      ensures idx[k] < |lines| && kept[k] == lines[idx[k]]
    {
      if k > 0 {
        assert kept[k] == Kept(lines[1..])[k - 1];
        assert idx[k] == Shifted(rest)[k - 1];
      }
    }
  }

  /** Position 0 in front of moved positions keeps them increasing. */
  lemma FrontIncreasing(rest: seq<nat>)
    requires Increasing(Shifted(rest))
    ensures Increasing([0] + Shifted(rest))
  {
    var idx := [0] + Shifted(rest);
    forall k, m | 0 <= k < m < |idx|
      ensures idx[k] < idx[m]
    {
      assert idx[m] == Shifted(rest)[m - 1];
      if k > 0 {
        assert idx[k] == Shifted(rest)[k - 1];
      }
    }
  }

  /** Position 0 in front of positions covering the lines after the first
      covers every line. */
  lemma FrontCovers(lines: seq<string>, rest: seq<nat>)
    requires lines != []
    requires CoversFrom(lines, Shifted(rest), 1)
    ensures CoversFrom(lines, [0] + Shifted(rest), 0)
  {
    var idx := [0] + Shifted(rest);
    forall j | 0 <= j < |lines| && !IsSkipped(lines[j])
      ensures j in idx
    {
      if j == 0 {
        assert idx[0] == 0;
      } else {
        var k :| 0 <= k < |Shifted(rest)| && Shifted(rest)[k] == j;
        assert idx[k + 1] == j;
      }
    }
  }

  /** A first line that is kept goes in front of the positions of the rest. */
  lemma KeptAtFront(lines: seq<string>, rest: seq<nat>)
    requires lines != [] && !IsSkipped(lines[0])
    requires KeptAt(lines[1..], Kept(lines[1..]), rest)
    ensures KeptAt(lines, Kept(lines), [0] + Shifted(rest))
  {
    ShiftedPositions(lines, rest);
    ShiftedIncreasing(rest);
    ShiftedCovers(lines, rest);
    FrontPositions(lines, rest);
    FrontIncreasing(rest);
    FrontCovers(lines, rest);
  }

  /** The kept lines are every line that is not skipped, in the order of
      the file. */
  lemma {:induction false} KeptInOrder(lines: seq<string>)
    ensures exists idx :: KeptAt(lines, Kept(lines), idx)
    decreases |lines|
  {
    if lines == [] {
      assert KeptAt(lines, Kept(lines), []);
    } else {
      KeptInOrder(lines[1..]);
      var rest :| KeptAt(lines[1..], Kept(lines[1..]), rest);
      if IsSkipped(lines[0]) {
        KeptAtSkipped(lines, rest);
      } else {
        KeptAtFront(lines, rest);
      }
    }
  }

  /** What reading the lines yields. */
  datatype Reading =
    | Read(vars: Names, props: seq<Expr>)
    | SyntaxErrorAt(lineNumber: nat)
    | VariablesExhausted

  /** Reads `lines`, the first of which has number `number`, onto the
      registry `vars` and the propositions `props` read so far. */
  function ReadFrom(vars: Names, props: seq<Expr>, lines: seq<string>, number: nat): (r: Reading)
    requires Valid(vars)
    ensures r.Read? ==> Valid(r.vars) && vars <= r.vars
    ensures r.Read? ==> props <= r.props && |r.props| == |props| + |Kept(lines)|
    ensures r.SyntaxErrorAt? ==> number <= r.lineNumber < number + |lines|
    decreases |lines|
  {
    if lines == [] then Read(vars, props)
    else if IsSkipped(lines[0]) then ReadFrom(vars, props, lines[1..], number + 1)
    else
      var t := ParseTopLevel(vars, lines[0]);
      match t.line
      case VariableOverflow => VariablesExhausted
      case SyntaxError => SyntaxErrorAt(number)
      case Parsed(e) => ReadFrom(t.vars, props + [e], lines[1..], number + 1)
  }

  /** When every line is skipped, reading changes nothing. */
  lemma {:induction false} AllSkipped(vars: Names, props: seq<Expr>, lines: seq<string>, number: nat)
    requires Valid(vars)
    requires Kept(lines) == []
    ensures ReadFrom(vars, props, lines, number) == Read(vars, props)
    decreases |lines|
  {
    if lines != [] {
      AllSkipped(vars, props, lines[1..], number + 1);
    }
  }

  /** Reading a line that parses continues from the registry it left,
      with its formula appended. */
  lemma ReadFromStep(vars: Names, props: seq<Expr>, lines: seq<string>, number: nat)
    requires Valid(vars)
    requires lines != [] && !IsSkipped(lines[0])
    requires ParseTopLevel(vars, lines[0]).line.Parsed?
    ensures ReadFrom(vars, props, lines, number) ==
      ReadFrom(ParseTopLevel(vars, lines[0]).vars, props + [ParseTopLevel(vars, lines[0]).line.expr], lines[1..], number + 1)
  {
  }

  /** Reading stops at a line that does not parse: at the fatal variable
      error, or with the line's number at a syntax error. */
  lemma ReadFromStop(vars: Names, props: seq<Expr>, lines: seq<string>, number: nat)
    requires Valid(vars)
    requires lines != [] && !IsSkipped(lines[0])
    requires !ParseTopLevel(vars, lines[0]).line.Parsed?
    ensures ReadFrom(vars, props, lines, number) ==
      if ParseTopLevel(vars, lines[0]).line.VariableOverflow? then VariablesExhausted
      else SyntaxErrorAt(number)
  {
  }

  /** The line a syntax error is reported on is one that was not skipped. */
  lemma {:induction false} ErrorLineNotSkipped(vars: Names, props: seq<Expr>, lines: seq<string>, number: nat)
    requires Valid(vars)
    ensures ReadFrom(vars, props, lines, number).SyntaxErrorAt? ==>
      !IsSkipped(lines[ReadFrom(vars, props, lines, number).lineNumber - number])
    decreases |lines|
  {
    if lines != [] && IsSkipped(lines[0]) {
      ErrorLineNotSkipped(vars, props, lines[1..], number + 1);
      var r := ReadFrom(vars, props, lines[1..], number + 1);
      assert ReadFrom(vars, props, lines, number) == r;
      if r.SyntaxErrorAt? {
        assert lines[1..][r.lineNumber - (number + 1)] == lines[r.lineNumber - number];
      }
    } else if lines != [] {
      var t := ParseTopLevel(vars, lines[0]);
      if t.line.Parsed? {
        ErrorLineNotSkipped(t.vars, props + [t.line.expr], lines[1..], number + 1);
        var r := ReadFrom(t.vars, props + [t.line.expr], lines[1..], number + 1);
        ReadFromStep(vars, props, lines, number);
        if r.SyntaxErrorAt? {
          assert lines[1..][r.lineNumber - (number + 1)] == lines[r.lineNumber - number];
        }
      } else {
        ReadFromStop(vars, props, lines, number);
      }
    }
  }

  /** Line `k` of `lines` is one that is not skipped, the lines before it
      read without error, and it fails to parse from the registry they
      left. */
  predicate ErrorAt(vars: Names, props: seq<Expr>, lines: seq<string>, number: nat, k: nat)
    requires Valid(vars)
  {
    k < |lines| && !IsSkipped(lines[k]) &&
    ReadFrom(vars, props, lines[..k], number).Read? &&
    ParseTopLevel(ReadFrom(vars, props, lines[..k], number).vars, lines[k]).line.SyntaxError?
  }

  /** A first line that is kept and does not parse is the failing line. */
  lemma ErrorAtFirst(vars: Names, props: seq<Expr>, lines: seq<string>, number: nat)
    requires Valid(vars)
    requires lines != [] && !IsSkipped(lines[0])
    requires ParseTopLevel(vars, lines[0]).line.SyntaxError?
    ensures ErrorAt(vars, props, lines, number, 0)
  {
    assert lines[..0] == [];
  }

  /** A skipped first line moves the failing line one further. */
  lemma ErrorAtSkipped(vars: Names, props: seq<Expr>, lines: seq<string>, number: nat, k: nat)
    requires Valid(vars)
    requires lines != [] && IsSkipped(lines[0])
    requires ErrorAt(vars, props, lines[1..], number + 1, k)
    ensures ErrorAt(vars, props, lines, number, k + 1)
  {
    PrefixTail(lines, k + 1);
  }

  /** So does a first line that parses, the rest being read from the
      registry it left. */
  lemma ErrorAtParsed(vars: Names, props: seq<Expr>, lines: seq<string>, number: nat, k: nat)
    requires Valid(vars)
    requires lines != [] && !IsSkipped(lines[0])
    requires ParseTopLevel(vars, lines[0]).line.Parsed?
    requires ErrorAt(ParseTopLevel(vars, lines[0]).vars, props + [ParseTopLevel(vars, lines[0]).line.expr],
                     lines[1..], number + 1, k)
    ensures ErrorAt(vars, props, lines, number, k + 1)
  {
    PrefixTail(lines, k + 1);
    ReadFromStep(vars, props, lines[..k + 1], number);
  }

  /** A syntax error reported on a line means: the lines before it read
      without error, and the line itself, which is not skipped, fails to
      parse from the registry those earlier lines left. */
  lemma {:induction false} SyntaxErrorMeans(vars: Names, props: seq<Expr>, lines: seq<string>, number: nat)
    requires Valid(vars)
    requires ReadFrom(vars, props, lines, number).SyntaxErrorAt?
    ensures ErrorAt(vars, props, lines, number, ReadFrom(vars, props, lines, number).lineNumber - number)
    decreases |lines|, 1
  {
    if IsSkipped(lines[0]) {
      SyntaxErrorMeans(vars, props, lines[1..], number + 1);
      ErrorAtSkipped(vars, props, lines, number, ReadFrom(vars, props, lines[1..], number + 1).lineNumber - (number + 1));
    } else {
      SyntaxErrorKept(vars, props, lines, number);
    }
  }

  /** The same when the first line is not skipped. */
  lemma {:induction false} SyntaxErrorKept(vars: Names, props: seq<Expr>, lines: seq<string>, number: nat)
    requires Valid(vars)
    requires lines != [] && !IsSkipped(lines[0])
    requires ReadFrom(vars, props, lines, number).SyntaxErrorAt?
    ensures ErrorAt(vars, props, lines, number, ReadFrom(vars, props, lines, number).lineNumber - number)
    decreases |lines|, 0
  {
    var t := ParseTopLevel(vars, lines[0]);
    if t.line.Parsed? {
      ReadFromStep(vars, props, lines, number);
      SyntaxErrorMeans(t.vars, props + [t.line.expr], lines[1..], number + 1);
      ErrorAtParsed(vars, props, lines, number,
        ReadFrom(t.vars, props + [t.line.expr], lines[1..], number + 1).lineNumber - (number + 1));
    } else {
      ReadFromStop(vars, props, lines, number);
      ErrorAtFirst(vars, props, lines, number);
    }
  }

  /** The first `k` lines are the first line followed by the first `k - 1`
      lines of the rest. */
  lemma PrefixTail(lines: seq<string>, k: nat)
    requires 1 <= k <= |lines|
    ensures lines[..k] != [] && lines[..k][0] == lines[0]
    ensures lines[..k][1..] == lines[1..][..k - 1]
    ensures k - 1 < |lines[1..]| ==> lines[1..][k - 1] == lines[k]
  {
  }

  /** Every proposition read uses only registered variables. */
  lemma {:induction false} ReadCovers(vars: Names, props: seq<Expr>, lines: seq<string>, number: nat)
    requires Valid(vars)
    requires forall k :: 0 <= k < |props| ==> VarsBelow(props[k], |vars|)
    ensures ReadFrom(vars, props, lines, number).Read? ==>
      forall k :: 0 <= k < |ReadFrom(vars, props, lines, number).props| ==>
        VarsBelow(ReadFrom(vars, props, lines, number).props[k], |ReadFrom(vars, props, lines, number).vars|)
    decreases |lines|
  {
    if lines != [] {
      if IsSkipped(lines[0]) {
        ReadCovers(vars, props, lines[1..], number + 1);
        assert ReadFrom(vars, props, lines, number) == ReadFrom(vars, props, lines[1..], number + 1);
      } else {
        var t := ParseTopLevel(vars, lines[0]);
        if t.line.Parsed? {
          forall k | 0 <= k < |props|
            ensures VarsBelow(props[k], |t.vars|)
          {
            VarsBelowGrows(props[k], |vars|, |t.vars|);
          }
          ReadCovers(t.vars, props + [t.line.expr], lines[1..], number + 1);
          ReadFromStep(vars, props, lines, number);
        } else {
          assert !ReadFrom(vars, props, lines, number).Read?;
        }
      }
    }
  }

  /** The reading loop of `main`: line numbers count every line, skipped
      ones included, from 1. */
  method ReadPropositions(lines: seq<string>) returns (r: Reading)
    ensures r == ReadFrom([], [], lines, 1)
  {
    var vars: Names := [];
    var props: seq<Expr> := [];
    var k := 0;
    while k < |lines|
      invariant k <= |lines| && Valid(vars)
      invariant ReadFrom(vars, props, lines[k..], k + 1) == ReadFrom([], [], lines, 1)
    {
      assert lines[k..][1..] == lines[k + 1..];
      if !IsSkipped(lines[k]) {
        var t := ParseTopLevel(vars, lines[k]);
        match t.line {
          case VariableOverflow =>
            return VariablesExhausted;
          case SyntaxError =>
            return SyntaxErrorAt(k + 1);
          case Parsed(e) =>
            vars, props := t.vars, props + [e];
        }
      }
      k := k + 1;
    }
    assert lines[k..] == [];
    r := Read(vars, props);
  }

  datatype Report =
    | SyntaxErrorOnLine(lineNumber: nat)
    | VariableLimit
    | NoTheorem
    | Checked(vars: Names, props: seq<Expr>, outcome: Outcome)

  /** The whole run: read, refuse an empty list of propositions, compute
      the bound and enumerate. A reported outcome is the exact verdict on
      the masks up to the bound, and it answers the logical question for
      every assignment. */
  method Run(lines: seq<string>) returns (r: Report)
    ensures r.SyntaxErrorOnLine? <==> ReadFrom([], [], lines, 1).SyntaxErrorAt?
    ensures r.SyntaxErrorOnLine? ==> r.lineNumber == ReadFrom([], [], lines, 1).lineNumber
    ensures r.VariableLimit? <==> ReadFrom([], [], lines, 1).VariablesExhausted?
    ensures r.NoTheorem? <==> ReadFrom([], [], lines, 1).Read? && ReadFrom([], [], lines, 1).props == []
    ensures r.NoTheorem? <==> Kept(lines) == []
    ensures r.Checked? ==> ReadFrom([], [], lines, 1) == Read(r.vars, r.props) && |r.props| >= 1
    ensures r.Checked? ==> Valid(r.vars)
    ensures r.Checked? ==> IsVerdict(r.props, Bound(|r.vars|), r.outcome)
    ensures r.Checked? ==> (r.outcome.Inconsistent? <==> !Consistent(r.props))
    ensures r.Checked? ==> (r.outcome.Verified? <==> Consistent(r.props) && Entailed(r.props))
    ensures r.Checked? ==> (r.outcome.CounterExample? <==> Consistent(r.props) && !Entailed(r.props))
  {
    if Kept(lines) == [] {
      AllSkipped([], [], lines, 1);
    }
    var reading := ReadPropositions(lines);
    match reading {
      case SyntaxErrorAt(n) =>
        return SyntaxErrorOnLine(n);
      case VariablesExhausted =>
        return VariableLimit;
      case Read(vars, props) =>
        if |props| < 1 {
          return NoTheorem;
        }
        ReadCovers([], [], lines, 1);
        var max := MaxMask(|vars|);
        var o := Enumerate(props, max);
        OutcomeMeaning(props, |vars|, o);
        return Checked(vars, props, o);
    }
  }
}

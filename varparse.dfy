/** `parseVar` as the source runs it: cursor loops over the line and a
    registry passed in and handed back (propcheck.cc:164-200). */
module VarReader {
  import opened Expressions
  import opened Text
  import opened Registry
  import opened Grammar

  /** The search loop of `parseVar`: advances to the first `]`, and reports
      failure (`found` false) when the line ends first. */
  method FindClose(s: string, start: nat) returns (found: bool, close: nat)
    requires start <= |s|
    ensures found <==> At(s, ScanTo(s, start)) == ']'
    ensures found ==> close == ScanTo(s, start) && close < |s| && s[close] == ']'
    ensures found ==> forall k :: start <= k < close ==> s[k] != ']' && s[k] != NUL
  {
    ScanToStops(s, start);
    var e := start;
    while At(s, e) != ']'
      invariant start <= e <= |s|
      invariant ScanTo(s, e) == ScanTo(s, start)
      decreases |s| - e
    {
      if At(s, e) == NUL {
        return false, e;
      }
      e := e + 1;
    }
    return true, e;
  }

  /** The backward loop of `parseVar`: from the character before `]`, steps
      back over whitespace but not below `start`, and returns the end of the
      trimmed name. */
  method TrimBack(s: string, start: nat, close: nat) returns (end: nat)
    requires 1 <= start <= close < |s|
    requires start < close ==> !IsSpace(s[start])
    ensures start <= end <= close
    ensures forall k :: end <= k < close ==> IsSpace(s[k])
    ensures end > start ==> !IsSpace(s[end - 1])
    ensures end == TrimEnd(s, start, close)
  {
    var e: nat := close - 1;
    while IsSpace(s[e]) && e > start
      invariant start <= e + 1 <= close
      invariant TrimEnd(s, start, e + 1) == TrimEnd(s, start, close)
    {
      e := e - 1;
    }
    end := e + 1;
    TrimEndSpaces(s, start, close);
  }

  /** The last loop of `parseVar`: forward again from the end of the name
      to the `]` the search loop stopped at. */
  method ForwardToClose(s: string, end: nat, close: nat) returns (f: nat)
    requires end <= close < |s| && s[close] == ']'
    requires forall k :: end <= k < close ==> s[k] != ']'
    ensures f == close
  {
    f := end;
    while s[f] != ']'
      invariant end <= f <= close
      decreases close - f
    {
      f := f + 1;
    }
  }

  /** Reads `[ name ]` at the cursor and resolves the trimmed name; proved
      to take exactly the step `Grammar.ParseVar` specifies. */
  method ParseVar(vars: Names, s: string, i: nat) returns (st: Step)
    requires Valid(vars) && i <= |s|
    ensures st == Grammar.ParseVar(vars, s, i)
  {
    if At(s, i) != '[' {
      return Step(vars, NoMatch);
    }
    var w := SkipWS(s, i + 1);
    var start := i + 1 + w;
    var found, close := FindClose(s, start);
    if !found {
      return Step(vars, NoMatch);
    }
    var end := TrimBack(s, start, close);
    var name := s[start..end];
    var f := ForwardToClose(s, end, close);
    var r := Register(vars, name);
    if r.Overflow? {
      return Step(r.vars, TooManyVariables);
    }
    return Step(r.vars, Match(f + 1 - i, Var(r.index)));
  }
}

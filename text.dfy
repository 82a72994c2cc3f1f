/** Character-level scanning over a line (propcheck.cc, `skipWS`,
    `parseString`, `parseOneString` and the operator scan of
    `parseBinaryExpr`).

    A line is a `string` read through a cursor; reading at or past its end
    yields the terminating NUL, as reading a C string does. */
module Text {

  const NUL: char := '\0'

  /** The character under the cursor, or NUL at the end of the line. */
  function At(s: string, i: nat): char {
    if i < |s| then s[i] else NUL
  }

  /** `isspace` in the "C" locale: space, tab, newline, vertical tab,
      form feed and carriage return. */
  predicate IsSpace(c: char) {
    c == ' ' || '\t' <= c <= '\r'
  }

  /** The length of the run of whitespace that starts at `i`. */
  function WsRun(s: string, i: nat): (n: nat)
    requires i <= |s|
    ensures i + n <= |s|
    decreases |s| - i
  {
    if i < |s| && IsSpace(s[i]) then 1 + WsRun(s, i + 1) else 0
  }

  /** The run is all whitespace, and what follows it is not. */
  lemma {:induction false} WsRunSpaces(s: string, i: nat)
    requires i <= |s|
    ensures forall k :: i <= k < i + WsRun(s, i) ==> IsSpace(s[k])
    ensures !IsSpace(At(s, i + WsRun(s, i)))
    decreases |s| - i
  {
    if i < |s| && IsSpace(s[i]) {
      WsRunSpaces(s, i + 1);
    }
  }

  /** `skipWS`: the number of whitespace characters in front of the cursor. */
  method SkipWS(s: string, i: nat) returns (n: nat)
    requires i <= |s|
    ensures i + n <= |s|
    ensures forall k :: i <= k < i + n ==> IsSpace(s[k])
    ensures !IsSpace(At(s, i + n))
    ensures n == WsRun(s, i)
  {
    var e := i;
    while IsSpace(At(s, e))
      invariant i <= e <= |s|
      invariant e + WsRun(s, e) == i + WsRun(s, i)
      decreases |s| - e
    {
      e := e + 1;
    }
    n := e - i;
    WsRunSpaces(s, i);
  }

  /** The line continues at `i` with the characters of `lit` from position
      `k` of `lit` on, compared one character at a time. */
  predicate MatchesFrom(s: string, i: nat, lit: string, k: nat)
    decreases |lit| - k
  {
    k >= |lit| || (i + k < |s| && s[i + k] == lit[k] && MatchesFrom(s, i, lit, k + 1))
  }

  /** The line continues at `i` with the characters of `lit`. */
  predicate StartsWith(s: string, i: nat, lit: string) {
    MatchesFrom(s, i, lit, 0)
  }

  /** The character-by-character comparison agrees with comparing the
      remaining characters of `lit` with those of the line. */
  lemma {:induction false} MatchesFromMeans(s: string, i: nat, lit: string, k: nat)
    ensures MatchesFrom(s, i, lit, k) <==>
      k >= |lit| || (i + |lit| <= |s| && forall m :: k <= m < |lit| ==> s[i + m] == lit[m])
    decreases |lit| - k
  {
    if k < |lit| {
      MatchesFromMeans(s, i, lit, k + 1);
    }
  }

  /** `lit` occurs at `i` exactly when the slice of the line there is `lit`. */
  lemma StartsWithMeans(s: string, i: nat, lit: string)
    requires i <= |s|
    ensures StartsWith(s, i, lit) <==> i + |lit| <= |s| && s[i..i + |lit|] == lit
  {
    MatchesFromMeans(s, i, lit, 0);
    if i + |lit| <= |s| && s[i..i + |lit|] == lit {
      forall m | 0 <= m < |lit|
        ensures s[i + m] == lit[m]
      {
        assert s[i..i + |lit|][m] == s[i + m];
      }
    }
  }

  /** What `parseString` yields: the length of `lit` when the line continues
      with it, 0 otherwise. */
  function LiteralLen(s: string, i: nat, lit: string): nat {
    if StartsWith(s, i, lit) then |lit| else 0
  }

  /** `parseString`: compares the line with a NUL-free literal character by
      character, never reading past the end of the line; the count consumed
      is the literal's length on a full match and 0 otherwise. */
  method ParseString(s: string, i: nat, lit: string) returns (n: nat)
    requires i <= |s|
    requires NUL !in lit
    ensures StartsWith(s, i, lit) ==> n == |lit|
    ensures !StartsWith(s, i, lit) ==> n == 0
    ensures n == LiteralLen(s, i, lit)
  {
    var j := 0;
    while j < |lit| && At(s, i + j) != NUL && At(s, i + j) == lit[j]
      invariant 0 <= j <= |lit|
      invariant i + j <= |s|
      invariant forall m :: 0 <= m < j ==> s[i + m] == lit[m]
    {
      j := j + 1;
    }
    MatchesFromMeans(s, i, lit, 0);
    if j == |lit| {
      n := j;
    } else {
      assert lit[j] != NUL;
      n := 0;
    }
  }

  /** What `parseOneString` yields: the first literal if the line continues
      with it, else the second, else 0. */
  function OneOfLen(s: string, i: nat, lit1: string, lit2: string): nat {
    var n := LiteralLen(s, i, lit1);
    if n != 0 then n else LiteralLen(s, i, lit2)
  }

  /** `parseOneString`: tries `lit1` first and `lit2` only when `lit1` does
      not match. */
  method ParseOneString(s: string, i: nat, lit1: string, lit2: string) returns (n: nat)
    requires i <= |s|
    requires NUL !in lit1 && NUL !in lit2
    requires lit1 != []
    ensures StartsWith(s, i, lit1) ==> n == |lit1|
    ensures !StartsWith(s, i, lit1) && StartsWith(s, i, lit2) ==> n == |lit2|
    ensures !StartsWith(s, i, lit1) && !StartsWith(s, i, lit2) ==> n == 0
    ensures n == OneOfLen(s, i, lit1, lit2)
  {
    n := ParseString(s, i, lit1);
    if n == 0 {
      n := ParseString(s, i, lit2);
    }
  }

  /** The characters at which the operator scan of `parseBinaryExpr` stops,
      `c` being the character under the cursor and `d` the next one: the
      end of the line, whitespace, and every character that can begin an
      operand (`!`, `(`, `[`, `T`, `F`, and `f`, `t`, `n` when followed by
      `a`, `r`, `o` as in "false", "true", "not"). */
  predicate Stops(c: char, d: char) {
    c == NUL || c == '!' || c == '(' || c == '[' || c == 'T' || c == 'F' ||
    (c == 'f' && d == 'a') || (c == 't' && d == 'r') || (c == 'n' && d == 'o') ||
    IsSpace(c)
  }

  /** The operator scan stops at position `k` of the line. */
  predicate EndsOperator(s: string, k: nat) {
    Stops(At(s, k), At(s, k + 1))
  }

  /** The length of the operator token that starts at `k`: the longest run
      of characters none of which ends the operator. */
  function OpRun(s: string, k: nat): (n: nat)
    requires k <= |s|
    ensures k + n <= |s|
    decreases |s| - k
  {
    if EndsOperator(s, k) then 0 else 1 + OpRun(s, k + 1)
  }

  /** No character of the token ends it, and the character after it does. */
  lemma {:induction false} OpRunEnds(s: string, k: nat)
    requires k <= |s|
    ensures forall j :: k <= j < k + OpRun(s, k) ==> !EndsOperator(s, j)
    ensures EndsOperator(s, k + OpRun(s, k))
    decreases |s| - k
  {
    if !EndsOperator(s, k) {
      OpRunEnds(s, k + 1);
    }
  }

  /** The operator scan of `parseBinaryExpr`: advances while the character
      under the cursor does not end the operator token. */
  method ScanOperator(s: string, k: nat) returns (n: nat)
    requires k <= |s|
    ensures k + n <= |s|
    ensures forall j :: k <= j < k + n ==> !EndsOperator(s, j)
    ensures EndsOperator(s, k + n)
    ensures n == OpRun(s, k)
  {
    var e := k;
    while !EndsOperator(s, e)
      invariant k <= e <= |s|
      invariant e + OpRun(s, e) == k + OpRun(s, k)
      decreases |s| - e
    {
      e := e + 1;
    }
    n := e - k;
    OpRunEnds(s, k);
  }

  /** The index of the first NUL at or after `i`, or the end of the line. */
  function CLen(s: string, i: nat): (k: nat)
    requires i <= |s|
    ensures i <= k <= |s|
    decreases |s| - i
  {
    if i == |s| || s[i] == NUL then i else CLen(s, i + 1)
  }

  /** `CLen` stops at the first NUL: none before it, and one at it unless
      the line ends there. */
  lemma {:induction false} CLenStops(s: string, i: nat)
    requires i <= |s|
    ensures forall j :: i <= j < CLen(s, i) ==> s[j] != NUL
    ensures CLen(s, i) < |s| ==> s[CLen(s, i)] == NUL
    decreases |s| - i
  {
    if i < |s| && s[i] != NUL {
      CLenStops(s, i + 1);
    }
  }

  /** The C string a line holds: its characters up to the first NUL. */
  function CStr(s: string): string {
    s[..CLen(s, 0)]
  }

  /** The C string is a NUL-free prefix of the line, followed in the line
      by a NUL unless it is the whole line. */
  lemma CStrPrefix(s: string)
    ensures NUL !in CStr(s)
    ensures CStr(s) <= s
    ensures |CStr(s)| < |s| ==> s[|CStr(s)|] == NUL
  {
    CLenStops(s, 0);
  }

  /** A line without NUL is a C string to its end, from any cursor. */
  lemma CLenNoNul(s: string, i: nat)
    requires i <= |s| && NUL !in s
    ensures CLen(s, i) == |s|
    ensures CStr(s) == s
  {
    CLenStops(s, i);
    CLenStops(s, 0);
  }

  /** The character `k` places after a cursor at which `t` occurs. */
  lemma StartsWithAt(s: string, i: nat, t: string, k: nat)
    requires StartsWith(s, i, t)
    requires k < |t|
    ensures i + k < |s| && s[i + k] == t[k] && At(s, i + k) == t[k]
  {
    MatchesFromMeans(s, i, t, 0);
  }

  /** Where `a + b` occurs, `a` occurs and `b` follows it. */
  lemma StartsWithSplit(s: string, i: nat, a: string, b: string)
    requires StartsWith(s, i, a + b)
    ensures StartsWith(s, i, a) && StartsWith(s, i + |a|, b)
  {
    MatchesFromMeans(s, i, a + b, 0);
    MatchesFromMeans(s, i, a, 0);
    MatchesFromMeans(s, i + |a|, b, 0);
    forall m | 0 <= m < |a|
      ensures s[i + m] == a[m]
    {
      assert (a + b)[m] == a[m];
    }
    forall m | 0 <= m < |b|
      ensures s[i + |a| + m] == b[m]
    {
      assert (a + b)[|a| + m] == b[m];
    }
  }

  /** A literal whose first character differs from the one under the
      cursor does not match. */
  lemma FirstCharMismatch(s: string, i: nat, lit: string)
    requires i < |s|
    requires lit != [] && s[i] != lit[0]
    ensures LiteralLen(s, i, lit) == 0
  {
  }

  /** A run of `n` characters that do not end the operator, followed by
      one that does, is the whole operator token. */
  lemma {:induction false} OpRunStopsAt(s: string, k: nat, n: nat)
    requires k + n <= |s|
    requires forall j :: k <= j < k + n ==> !EndsOperator(s, j)
    requires EndsOperator(s, k + n)
    ensures OpRun(s, k) == n
    decreases n
  {
    if n > 0 {
      OpRunStopsAt(s, k + 1, n - 1);
    }
  }
}

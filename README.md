# propcheck in Dafny

A model of propcheck, a brute-force checker that decides whether the last
proposition of a file follows from the others. The original program is one
C++ file, `propcheck.cc`. This model covers four parts of it:

- **The expression evaluator** (`expr.dfy`, module `Expressions`). The nine
  node kinds become one datatype. `Eval` computes each node's value with the
  same 64-bit operations as its `operator()`. `Holds` is the classical
  truth-table meaning, and `EvalMeansHolds` proves that the two agree.
- **The recursive-descent parser.**
  - `text.dfy` (module `Text`) holds the character scanners:
    - `skipWS`, `parseString` and `parseOneString`;
    - the operator-token scan.

    Each scanner is a method with its loop, proved equal to a recursive
    specification function.
  - `grammar.dfy` (module `Grammar`) gives each parse function as a pure
    function over a line, a cursor and a registry. Every parse function
    states two things:
    - `Consumes`: a match consumes between 1 and the remaining characters;
    - `Keeps`: the registry only grows and stays valid, and the tree built
      uses only registered variables.
  - `varparse.dfy` (module `VarReader`) gives `parseVar` as the loops the
    source runs, proved equal to `Grammar.ParseVar`.
  - `parsefacts.dfy` (module `ParserFacts`) states the parser's promises
    against independent definitions: trimming, the operator table, the
    constants, the trees the negation and the binary form build, and the
    whole-line rule.
  - `printer.dfy` (module `Printer`) is the parser's partner. The source
    has no printer: `Show` prints a tree fully parenthesised, with the
    first word of its row of the operator table, and `ParseShow` proves
    that `parseExpr` reads the printed text back as the same tree.
- **The variable registry** (`registry.dfy`, module `Registry`). The global
  `vector<string>` becomes a value of type `seq<string>`, threaded through
  every parse function and handed back with its result.
  - `Valid` is the registry's invariant: distinct names, at most 32 of them.
  - The source's vector starts empty, which is valid, and every non-fatal
    step keeps it valid.
  - Names registered during a parse attempt that later fails stay
    registered, as they do in the source.
- **The driver and the enumeration engine.**
  - `driver.dfy` (module `Driver`) models the line filter and the reading
    loop of `main`.
  - `engine.dfy` (module `Engine`) models the bound computation and the
    mask loop. Their outcome is specified exactly: the smallest refuting
    mask, or "inconsistent", or "verified".
  - `OutcomeMeaning` proves that this outcome answers the logical question
    for every assignment, not only for the masks the loop tries.

How the source's features are modelled:

- **Line and cursor.** A line is a `string` holding the file's bytes, one
  `char` per byte, so `isspace` and the NUL test apply to bytes as in the
  source. Reading at or past its end yields NUL, as a C string does.
- **Parse results.** A parse result is a `Parse`: a match with its length
  and tree, or `NoMatch` (the source's 0), or `TooManyVariables`.
  `TooManyVariables` stands for the `exit(1)` on a 33rd name, and it stops
  all further parsing.
- **Masks.** A mask is a natural number; bit `i` is the lowest bit of the
  mask after `i` halvings.
- **The operator table.** It is the 13-entry table `Grammar.Entry`, in the
  order the source tests the words. `LookupToken` compares the token with
  each word character by character, in place. This is what the source's
  `std::string` equality does, and `LookupTokenSlice` relates the in-place
  comparison to comparing the token's slice as a word.
- **Order of the binary form.** `BinaryRest` reads the operator token, the
  right operand and the `)` in the source's order. It hands the table's
  answer to `BinaryClose`, which uses it only once the `)` has been found,
  as the source tests the words only after that point.

With no variables `max` starts at 1, so the loop tries masks 0 and 1. No
formula reads a bit then, so both masks give the same values. The model
follows the code (`Engine.Bound(0) == 1`).

## Model

| member | source | states |
|---|---|---|
| Expressions.VarValue | propcheck.cc:54-59 | a variable's value is 1 exactly when bit `i` of the mask is set, and is always 0 or 1 |
| Expressions.NotValue | propcheck.cc:62-67 | `1 ^ a` on a bit is a bit different from `a` |
| Expressions.AndValue | propcheck.cc:70-76 | `a & b` on bits is 1 exactly when both are 1 |
| Expressions.OrValue | propcheck.cc:77-83 | `a \| b` on bits is 1 exactly when either is 1 |
| Expressions.XorValue | propcheck.cc:84-90 | `a ^ b` on bits is 1 exactly when they differ |
| Expressions.ImpliesValue | propcheck.cc:91-97 | `1 ^ (a & (1 ^ b))` on bits is 1 exactly when `a` is 0 or `b` is 1 |
| Expressions.IffValue | propcheck.cc:98-104 | `a == b` on bits is 1 exactly when they are equal |
| Expressions.Eval | propcheck.cc:44-104 | every node evaluates to 0 or 1 |
| Expressions.EvalMeansHolds | propcheck.cc:44-104 | the bit-level evaluation of every tree is 1 exactly when the formula holds classically (Not flips, Implies is "not L or R", Iff is equality) |
| Expressions.ImpliesIsNotAndNot | propcheck.cc:91-97 | `Implies(L, R)` evaluates like `Not(And(L, Not(R)))` on every mask |
| Expressions.EvalIgnoresHighBits | propcheck.cc:54-59 | a tree whose variables are below `n` gives the same value on masks that agree on bits `0..n-1` |
| Text.SkipWS | propcheck.cc:109-114 | the count is the whitespace run at the cursor: all of it whitespace, followed by a non-space or the end |
| Text.StartsWithMeans | propcheck.cc:116-127 | the character-by-character comparison succeeds exactly when the slice of the line at the cursor is the literal |
| Text.ParseString | propcheck.cc:116-127 | returns the literal's length exactly when the line continues with it, else 0, never reading past the end of the line |
| Text.FirstCharMismatch | propcheck.cc:116-127 | a literal whose first character differs from the one under the cursor gives 0 |
| Text.ParseOneString | propcheck.cc:129-135 | the first literal's length when it matches, else the second's when it matches, else 0 |
| Text.ScanOperator | propcheck.cc:241-243 | the operator token is the longest run of characters none of which stops the scan, and the scan stops right after it |
| Text.OpRunStopsAt | propcheck.cc:241-243 | a run of non-stopping characters followed by a stopping one is exactly the operator token |
| Text.CStrPrefix | propcheck.cc:338 | the string the retry wraps is the NUL-free prefix of the line up to its first NUL |
| Registry.DistinctAt | propcheck.cc:185-191 | in a registry built by look-up-or-append, names at different positions differ |
| Registry.IndexOfFirst | propcheck.cc:186-189 | the search loop stops at the first equal name, and runs to the end exactly when the name is not registered |
| Registry.Resolve | propcheck.cc:185-197 | the registry is unchanged or gains the name at its end; the lookup is fatal exactly when more than 32 names result; a resolved index names the looked-up name |
| Registry.Register | propcheck.cc:185-197 | the search, the append and the 32-name check compute `Resolve` |
| Registry.ResolveKeepsValid | propcheck.cc:185-197 | a known name keeps its index and leaves the registry unchanged; a new name is appended at the old length; the 33rd name is the only fatal case; success keeps the names distinct and at most 32 |
| Registry.IndexOfDistinct | propcheck.cc:186-189 | in a valid registry every name is found at its own position |
| Grammar.ScanToStops | propcheck.cc:172-177 | the search for `]` passes neither `]` nor NUL and stops at one of them |
| Grammar.TrimEndSpaces | propcheck.cc:178-180 | moving back from `]` passes only whitespace and stops after a non-space or at the start of the name |
| Grammar.ParseVar | propcheck.cc:164-200 | a match consumes at least one character and no more than the line holds; the registry only grows and stays valid; the variable built is registered |
| Grammar.ParseNot | propcheck.cc:202-219 | the same for `!`/`not` followed by one expression (the tree it builds, the registry it leaves and the fatal case passed on: `ParserFacts.ParseNotReads`) |
| Grammar.ParseBinary | propcheck.cc:221-293 | the same for the parenthesised binary form (when it matches and the tree it builds: `ParserFacts.ParseBinaryOpens` and `ParserFacts.ParseBinaryReads`) |
| Grammar.BinaryRest | propcheck.cc:238-292 | the same for the part after the left operand: operator, right operand, `)` and the table lookup |
| Grammar.BinaryClose | propcheck.cc:255-292 | the same for the `)` after the right operand and the node the table's answer builds |
| Grammar.ParseExpr | propcheck.cc:295-326 | the same for the ordered alternation, with registrations of failed alternatives kept |
| Grammar.ExprAt | propcheck.cc:298-325 | the same for the attempts after the leading whitespace, counted from before it |
| Grammar.ParseTopLevel | propcheck.cc:328-347 | a non-fatal line leaves a valid, grown registry, and an accepted formula uses only registered variables (a printed formula accepted on the first attempt: `Printer.ShowParses`; one written without its outer parentheses accepted on the retry: `Printer.BareBinaryParses`) |
| ParserFacts.TrimLeftRun | propcheck.cc:169-171 | skipping whitespace after `[` leaves the bracket contents without their leading whitespace |
| ParserFacts.TrimRightEnd | propcheck.cc:178-181 | the backward loop leaves the name without its trailing whitespace |
| ParserFacts.ParseVarReads | propcheck.cc:164-200 | at `[` with a first `]` and no NUL before it, the name looked up is the bracket contents trimmed at both ends, and a match consumes everything up to and including `]` |
| ParserFacts.ParseVarUnclosed | propcheck.cc:172-177 | when no `]` follows before the line ends, there is no match and the registry is untouched |
| ParserFacts.ConstantLetter | propcheck.cc:295-309 | after whitespace, `T` or `F` is read as the constant, one character long, whatever follows, and the registry is untouched |
| ParserFacts.ConstantWord | propcheck.cc:137-161 | `parseTrue` and `parseFalse`, modelled by `Grammar.TrueLen` and `Grammar.FalseLen`: after whitespace, the words "true" and "false" are read as the constants, 4 and 5 characters long |
| ParserFacts.TokenIsWord | propcheck.cc:261-290 | comparing a whole token character by character with a word is string equality |
| ParserFacts.LookupTokenSlice | propcheck.cc:244 | looking the token up in place is looking up the string copied out of the line |
| ParserFacts.ConnectiveOrder | propcheck.cc:261-292 | the table is the source's chain of comparisons, "and"/"&", "or"/"\|", "xor"/"^", "then"/"implies"/"=>", "if"/"<=", "iff"/"<=>": each word builds its node with the operands in written order, except "if" and "<=" which swap them; any other word, the empty one included, builds nothing |
| ParserFacts.ConnectiveKnown | propcheck.cc:261-292 | exactly the 13 words of the table build a node |
| ParserFacts.ConnectiveIfMeaning | propcheck.cc:281-285 | "l if r" and "l <= r" build the node "r then l" builds, which holds when `r` implies `l` |
| ParserFacts.ParseNotReads | propcheck.cc:202-219 | `!` is tried before `not`; the negation matches exactly when one of them is followed by an expression, and the match is then the `Not` of that expression, one or three characters longer than it; once a prefix is read the registry is the one the operand left, match or not, and the negation is fatal exactly when the operand is; without a prefix the registry is untouched |
| ParserFacts.BinaryRestCloses | propcheck.cc:238-292 | once the right operand is read and `)` follows it, the rest matches exactly when the table finds the operator token; the match ends just after the `)`, holds the table's node over the left and right operands, and leaves the registry the right operand left |
| ParserFacts.BinaryRestNeedsClose | propcheck.cc:248-260 | the rest matches only when the right operand is read and `)` follows it |
| ParserFacts.BinaryRestBuilds | propcheck.cc:244-292 | with the right operand read and `)` after it, the rest matches exactly when the token copied out of the line is one of the 13 operator words, and then holds the node that word builds |
| ParserFacts.ParseBinaryOpens | propcheck.cc:224-235 | the binary form matches only when `(` follows the leading whitespace and the left operand is read after it; without the `(` nothing is read and the registry is untouched, and a left operand that does not match, a fatal one included, is the form's outcome with its registrations |
| ParserFacts.ParseBinaryReads | propcheck.cc:221-292 | once `(` and the left operand are read, the binary form matches exactly when the right operand is read after the operator token, `)` follows it, and the token is one of the 13 words; a match holds the node that word builds from the two operands; match or not, the registry is the one the right operand left, and the form is fatal exactly when the right operand is |
| ParserFacts.OperatorAtConnective | propcheck.cc:244 | the table applied in place to the token is the table applied to the string copied out of the line, and builds a node exactly for the 13 words |
| ParserFacts.BinaryRestLooksUp | propcheck.cc:255-292 | the binary form matches only when the table knows its operator token |
| ParserFacts.UnknownToken | propcheck.cc:240-244 | a token outside the table is not found |
| ParserFacts.UnknownOperator | propcheck.cc:291-292 | once the left operand is read, an operator outside the table makes the binary form fail, however the rest parses |
| ParserFacts.FillsLineMeans | propcheck.cc:332-334 | the test after a parse accepts exactly the matches followed by nothing but whitespace |
| ParserFacts.TopLevelFirstAttempt | propcheck.cc:331-335 | a first parse followed only by whitespace is the line's formula |
| ParserFacts.TopLevelRetry | propcheck.cc:337-346 | otherwise, unless the first parse was fatal, the result is that of one parse of `"(" + line + ")"` under the same whole-line test, from the registry the failed first attempt left |
| VarReader.FindClose | propcheck.cc:172-177 | the forward loop finds the first `]`, or fails at the end of the line |
| VarReader.TrimBack | propcheck.cc:178-180 | the backward loop stops at the end of the trimmed name |
| VarReader.ForwardToClose | propcheck.cc:182 | the second forward loop returns to the `]` the first one found |
| VarReader.ParseVar | propcheck.cc:164-200 | the loops of `parseVar` take exactly the step `Grammar.ParseVar` specifies |
| Printer.ConnectiveWord | propcheck.cc:261-292 | the word a binary node is printed with builds that node back from its operands |
| Printer.ParseShowVar | propcheck.cc:164-200 | a registered plain name printed in brackets is read back as its own variable, consuming the brackets and nothing more, with the registry unchanged |
| Printer.ParseShowNot | propcheck.cc:202-219 | `!` before a printed operand that reads back is read back as its negation |
| Printer.ParseShowInfix | propcheck.cc:221-292 | `(l w r)` with single spaces, whose operands read back as `l` and `r`, is read back as the node the table builds for `w`, consuming up to and including the `)` |
| Printer.ParseShow | propcheck.cc:164-326 | over registered names with no `]`, NUL or whitespace at either end, `parseExpr` reads a printed formula back as the same tree, consuming exactly the printed text whatever follows it, and leaves the registry unchanged |
| Printer.ParseShowBinary | propcheck.cc:221-292 | the same for a binary node, from the same for its operands |
| Printer.ShowParses | propcheck.cc:328-335 | a line holding exactly a printed formula is accepted on the first attempt as that formula, with the registry unchanged |
| Printer.BareBinaryParses | propcheck.cc:328-347 | a binary formula printed without its outer parentheses, such as `[P] and [Q]`, is accepted as that formula, with the registry unchanged: the first attempt reads only the left operand, and the retry reads the wrapped line whole |
| Driver.Kept | propcheck.cc:369-372 | no kept line starts with `//` or holds only whitespace, and there are no more kept lines than lines |
| Driver.KeptInOrder | propcheck.cc:366-372 | the kept lines are exactly the lines that are not skipped, each at its own position in the file, in the file's order |
| Driver.ReadFrom | propcheck.cc:366-380 | reading yields one proposition per kept line, a grown valid registry, or the number of a line of the file |
| Driver.AllSkipped | propcheck.cc:369-372 | a file whose lines are all skipped yields no propositions and changes nothing |
| Driver.SyntaxErrorMeans | propcheck.cc:366-379 | a syntax error reported on a line means: reading the lines before it succeeds, and the line itself is kept and is a syntax error when parsed from the registry that reading left |
| Driver.SyntaxErrorKept | propcheck.cc:374-379 | the same when the first line is kept |
| Driver.ErrorLineNotSkipped | propcheck.cc:366-378 | the line a syntax error is reported on is a kept line |
| Driver.ReadCovers | propcheck.cc:374-379 | every proposition read uses only registered variables |
| Driver.ReadPropositions | propcheck.cc:364-380 | the reading loop, with line numbers counting skipped lines from 1, computes `ReadFrom` |
| Driver.Run | propcheck.cc:364-428 | syntax error, variable limit and "no theorem" are reported exactly when reading gives them; otherwise the outcome is the exact verdict over the masks up to the bound, and it is "inconsistent", "verified" or a counterexample exactly as the axioms are unsatisfiable, entail the theorem, or do not |
| Engine.VerdictUnique | propcheck.cc:395-428 | at most one outcome meets the specification of the mask loop |
| Engine.CheckAxioms | propcheck.cc:399-403 | the axiom loop stops at the first axiom that is 0 under the mask, and reaches the theorem exactly when every axiom holds |
| Engine.Enumerate | propcheck.cc:395-428 | the mask loop reports the smallest mask up to `max` that satisfies the axioms and falsifies the theorem, or "inconsistent" when no mask up to `max` satisfies the axioms, or else "verified" |
| Engine.Bound | propcheck.cc:389-393 | the intended last mask is `2^V - 1` for `V >= 1` variables, and 1 when there are none |
| Engine.MaxMask | propcheck.cc:389-393 | the bound loop, with its shift done in the mask's width, computes `Bound` |
| Engine.MaxAsWrittenBelow32 | propcheck.cc:389-393 | with at most 31 variables, the loop as written computes the low `V` bits |
| Engine.MaxAsWrittenAt32 | propcheck.cc:389-396 | with 32 variables, the loop as written gives the all-ones word: every mask passes `x <= max` and `x++` wraps to 0 |
| Engine.Representative | propcheck.cc:395-396 | every assignment agrees, on formulas over `V` variables, with a mask up to the bound |
| Engine.AxiomsHoldMeans | propcheck.cc:399-406 | the evaluator's test of the axioms and theorem is their classical meaning |
| Engine.OutcomeMeaning | propcheck.cc:395-428 | with the bound for the registered variables, the outcome is "inconsistent" exactly when no assignment satisfies the axioms, "verified" exactly when some does and all of them satisfy the theorem, and a counterexample otherwise |

## Left out

- **File and process plumbing** (propcheck.cc:352-362 and 380):
  - command-line arguments;
  - opening and closing the file;
  - `fgets` and its 16384-byte line buffer, which splits longer lines.

  The input is the sequence of the file's lines.
- **Reporting.** All `printf` output is left out, including the
  counterexample table (propcheck.cc:408-421), and so are the exit codes.
  The run returns a `Report` value instead.
- **`exit(1)` on a 33rd variable.** It is the result `TooManyVariables`,
  which ends the parse and the run (`VariablesExhausted`, `VariableLimit`),
  not a process exit.
- **`shared_ptr` and virtual dispatch.** The trees are never shared or
  changed after construction, so a datatype replaces them.
- **The retry's return value** (propcheck.cc:344). It is a pointer
  difference between two unrelated buffers, so only the retry's success or
  failure is modelled.
- **`isspace`.** It is the "C" locale's set of six characters; other
  locales are not modelled.
- **Bit-level integer widths.** The `|=` of a still-clear bit in the bound
  loop is modelled as adding `2^i`. The `int` shift `1 << i` is written out
  only in `Engine.ShiftAsWritten`, for the finding below.
- Engine.MaxMask: computes the intended bound, not the one the source
  computes with 32 variables (see Findings). `Engine.MaxAsWritten` models
  the source's value.
- **The commented-out debug code** (propcheck.cc:430-436).

## Findings

| source | as written | input that shows it | evidently intended | confidence | as-written member | corrected member |
|---|---|---|---|---|---|---|
| propcheck.cc:389-396 | `max \|= (1<<i)` shifts an `int`; at `i == 31` the result is negative and is sign-extended into the 64-bit `max`, which becomes all ones | a file naming 32 distinct variables: `x <= max` holds for every mask and `x++` wraps to 0, so the loop never ends unless a counterexample stops it | `max == 2^32 - 1`, the mask of the 32 variable bits | not executed | Engine.MaxAsWrittenAt32 | Engine.MaxMask |

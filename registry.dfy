/** The variable registry (propcheck.cc, the global `variables` vector and
    the lookup-or-append block of `parseVar`).

    A name's position in the registry is its variable index. The registry
    only ever grows; a 33rd distinct name is fatal. */
module Registry {
  import opened Expressions

  type Names = seq<string>

  /** The most variables an assignment bitmask is meant to hold. */
  const MaxVariables: nat := 32

  /** No name occurs twice: each one is new to the names before it. */
  predicate Distinct(vars: Names)
    decreases |vars|
  {
    vars == [] || (vars[|vars| - 1] !in vars[..|vars| - 1] && Distinct(vars[..|vars| - 1]))
  }

  /** Names at two different positions of a distinct registry differ. */
  lemma {:induction false} DistinctAt(vars: Names, j: nat, k: nat)
    requires Distinct(vars)
    requires j < k < |vars|
    ensures vars[j] != vars[k]
    decreases |vars|
  {
    var last := |vars| - 1;
    if k == last {
      assert vars[j] == vars[..last][j];
    } else {
      DistinctAt(vars[..last], j, k);
    }
  }

  /** The registry's invariant on every path that did not end in the fatal
      error: pairwise distinct names, at most 32 of them. */
  predicate Valid(vars: Names) {
    |vars| <= MaxVariables && Distinct(vars)
  }

  /** The position of the first occurrence of `name`, or `|vars|` when it
      does not occur (the value of `i` after the search loop). */
  function IndexOf(vars: Names, name: string): (k: nat)
    ensures k <= |vars|
    ensures k < |vars| ==> vars[k] == name
    decreases |vars|
  {
    if vars == [] then 0
    else if vars[0] == name then 0
    else 1 + IndexOf(vars[1..], name)
  }

  /** `IndexOf` finds the first occurrence, and finds none exactly when
      the name is not registered. */
  lemma {:induction false} IndexOfFirst(vars: Names, name: string)
    ensures forall j :: 0 <= j < IndexOf(vars, name) ==> vars[j] != name
    ensures IndexOf(vars, name) == |vars| <==> name !in vars
    decreases |vars|
  {
    if vars != [] && vars[0] != name {
      IndexOfFirst(vars[1..], name);
      assert vars == [vars[0]] + vars[1..];
    }
  }

  datatype Resolution =
    | Resolved(vars: Names, index: VarIndex)
    | Overflow(vars: Names)

  /** Looks `name` up, appending it when it is new; the new registry has
      more than 32 names exactly when the lookup is fatal. */
  function Resolve(vars: Names, name: string): (r: Resolution)
    ensures r.vars == vars || r.vars == vars + [name]
    ensures r.Overflow? <==> |r.vars| > MaxVariables
    ensures r.Resolved? ==> r.index < |r.vars| && r.vars[r.index] == name
  {
    var k := IndexOf(vars, name);
    var vars' := if k == |vars| then vars + [name] else vars;
    if |vars'| > MaxVariables then Overflow(vars') else Resolved(vars', k)
  }

  /** The lookup-or-append block of `parseVar`: a linear search for the
      first equal name, an append when there is none, then the 32-name
      check. */
  method Register(vars: Names, name: string) returns (r: Resolution)
    ensures r == Resolve(vars, name)
  {
    var i := 0;
    while i < |vars| && vars[i] != name
      invariant 0 <= i <= |vars|
      invariant forall k :: 0 <= k < i ==> vars[k] != name
    {
      i := i + 1;
    }
    IndexOfFirst(vars, name);
    var vars' := vars;
    if i >= |vars'| {
      vars' := vars' + [name];
    }
    if |vars'| > MaxVariables {
      return Overflow(vars');
    }
    return Resolved(vars', i);
  }

  /** On a valid registry: a known name never fails and leaves the registry
      unchanged; a new name is appended, gets the next index, and fails
      exactly when 32 names are registered; and a successful lookup keeps
      the registry valid. */
  lemma ResolveKeepsValid(vars: Names, name: string)
    requires Valid(vars)
    ensures name in vars ==>
      Resolve(vars, name).Resolved? && Resolve(vars, name).vars == vars &&
      Resolve(vars, name).index == IndexOf(vars, name)
    ensures name !in vars ==> Resolve(vars, name).vars == vars + [name]
    ensures name !in vars && Resolve(vars, name).Resolved? ==> Resolve(vars, name).index == |vars|
    ensures Resolve(vars, name).Overflow? <==> name !in vars && |vars| == MaxVariables
    ensures Resolve(vars, name).Resolved? ==> Valid(Resolve(vars, name).vars)
  {
    IndexOfFirst(vars, name);
    var r := Resolve(vars, name);
    if r.Resolved? && name !in vars {
      assert r.vars[..|vars|] == vars;
    }
  }

  /** A valid registry finds every registered name at its own position. */
  lemma IndexOfDistinct(vars: Names, k: nat)
    requires Distinct(vars)
    requires k < |vars|
    ensures IndexOf(vars, vars[k]) == k
  {
    IndexOfFirst(vars, vars[k]);
    var found := IndexOf(vars, vars[k]);
    if found < k {
      DistinctAt(vars, found, k);
    }
  }
}

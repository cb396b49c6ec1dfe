/** Literals, clauses and three-valued assignments, as both solvers of the
    repository represent them.

    An assignment is the `vars` vector: entry 0 is reserved, entry `i` for
    `1 <= i <= var_cnt` is -1 (unassigned), 0 (false) or 1 (true). A literal
    is a nonzero integer whose magnitude is the variable and whose sign is
    the polarity. */
module Cnf {

  /** The variable a literal refers to (the source's `mod`). */
  function Var(lit: int): nat {
    if lit < 0 then -lit else lit
  }

  /** Every entry after the reserved slot 0 is -1, 0 or 1. */
  predicate ValidAssignment(a: seq<int>) {
    |a| >= 1 && forall i :: 1 <= i < |a| ==> -1 <= a[i] <= 1
  }

  /** Every literal of `c` names a variable in 1..n (so in particular none is 0). */
  predicate ClauseInRange(c: seq<int>, n: int) {
    forall j :: 0 <= j < |c| ==> 1 <= Var(c[j]) <= n
  }

  predicate InRange(cs: seq<seq<int>>, n: int) {
    forall k :: 0 <= k < |cs| ==> ClauseInRange(cs[k], n)
  }

  /** The literal evaluates to true: a negative literal on a false variable,
      a positive one on a true variable. */
  predicate IsTrue(a: seq<int>, lit: int)
    requires 1 <= Var(lit) < |a|
  {
    if lit < 0 then a[-lit] == 0 else a[lit] == 1
  }

  /** The literal is assigned and evaluates to false. */
  predicate IsFalse(a: seq<int>, lit: int)
    requires 1 <= Var(lit) < |a|
  {
    if lit < 0 then a[-lit] == 1 else a[lit] == 0
  }

  predicate Satisfied(a: seq<int>, c: seq<int>)
    requires ClauseInRange(c, |a| - 1)
  {
    exists j :: 0 <= j < |c| && IsTrue(a, c[j])
  }

  /** Every clause contains a literal that evaluates to true. */
  predicate Satisfies(a: seq<int>, cs: seq<seq<int>>)
    requires InRange(cs, |a| - 1)
  {
    forall k :: 0 <= k < |cs| ==> Satisfied(a, cs[k])
  }

  /** Every variable is 0 or 1. */
  predicate Total(a: seq<int>) {
    forall i :: 1 <= i < |a| ==> a[i] == 0 || a[i] == 1
  }

  /** `b` keeps every value that `a` has assigned (slot 0 is not a variable). */
  predicate Extends(b: seq<int>, a: seq<int>) {
    |b| == |a| && forall i :: 1 <= i < |a| && a[i] != -1 ==> b[i] == a[i]
  }

  /** No total assignment that keeps the values of `a` satisfies `cs`. */
  ghost predicate Refutes(cs: seq<seq<int>>, a: seq<int>)
    requires InRange(cs, |a| - 1)
  {
    forall t :: Extends(t, a) && Total(t) ==> !Satisfies(t, cs)
  }

  /** Some total assignment of the variables 1..n satisfies every clause. */
  ghost predicate Satisfiable(cs: seq<seq<int>>, n: nat)
    requires InRange(cs, n)
  {
    exists t :: |t| == n + 1 && Total(t) && Satisfies(t, cs)
  }

  /** Number of unassigned variables among 1..|a|-1. */
  function NumFree(a: seq<int>): (r: nat)
    ensures r <= if |a| == 0 then 0 else |a| - 1
    decreases |a|
  {
    if |a| <= 1 then 0
    else NumFree(a[..|a| - 1]) + (if a[|a| - 1] == -1 then 1 else 0)
  }

  /** Assigning a previously unassigned variable lowers the count by one. */
  lemma {:induction false} NumFreeAssign(a: seq<int>, v: nat, x: int)
    requires 1 <= v < |a| && a[v] == -1 && x != -1
    ensures NumFree(a[v := x]) == NumFree(a) - 1
    decreases |a|
  {
    if v == |a| - 1 {
      assert a[v := x][..|a| - 1] == a[..|a| - 1];
    } else {
      assert a[v := x][..|a| - 1] == a[..|a| - 1][v := x];
      NumFreeAssign(a[..|a| - 1], v, x);
    }
  }

  /** Extension is transitive. */
  lemma ExtendsTrans(c: seq<int>, b: seq<int>, a: seq<int>)
    requires Extends(c, b) && Extends(b, a)
    ensures Extends(c, a)
  {
  }

  lemma UpdateTwice(a: seq<int>, v: nat, x: int, y: int)
    requires v < |a|
    ensures a[v := x][v := y] == a[v := y]
    ensures a[v := x][v := a[v]] == a
  {
  }
}

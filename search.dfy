/** The depth-first search both solvers run, as a function: propagate,
    report a conflict, otherwise branch on the lowest-indexed unassigned
    variable, false first, then true. Its soundness and completeness are
    proved here; the in-place `backtrack` methods are proved equal to it. */
module Backtracking {
  import opened Cnf
  import opened UnitPropagation

  /** The source's `Status` enum. */
  datatype Status = Solved | Unsolvable

  /** Outcome of the search: a model, or none. */
  datatype Outcome = Sat(model: seq<int>) | Unsat

  /** The lowest unassigned variable at or after `from`, or |a| (that is,
      var_cnt + 1) when every one of them is assigned: `selectVar`. */
  function LowestFree(a: seq<int>, from: nat): (v: nat)
    requires 1 <= from <= |a|
    ensures from <= v <= |a|
    ensures forall i :: from <= i < v ==> a[i] != -1
    ensures v < |a| ==> a[v] == -1
    decreases |a| - from
  {
    if from == |a| || a[from] == -1 then from else LowestFree(a, from + 1)
  }

  /** `backtrack` on the assignment `a`, as a function. */
  function Search(cs: seq<seq<int>>, a: seq<int>): Outcome
    requires ValidAssignment(a) && InRange(cs, |a| - 1)
    decreases NumFree(a)
  {
    var p := Propagate(cs, a).assignment;
    if HasConflict(cs, p) then Unsat
    else
      var v := LowestFree(p, 1);
      if v == |p| then Sat(p)
      else
        NumFreeAssign(p, v, 0);
        NumFreeAssign(p, v, 1);
        match Search(cs, p[v := 0])
        case Sat(m) => Sat(m)
        case Unsat => Search(cs, p[v := 1])
  }

  /** One level of the search, unfolded: a conflict after propagation fails,
      a total propagated assignment is the model, and otherwise the branch on
      the lowest unassigned variable succeeds with false or else with true. */
  lemma SearchStep(cs: seq<seq<int>>, a: seq<int>)
    requires ValidAssignment(a) && InRange(cs, |a| - 1)
    ensures var p := Propagate(cs, a).assignment;
      (HasConflict(cs, p) ==> Search(cs, a) == Unsat) &&
      (!HasConflict(cs, p) && LowestFree(p, 1) == |p| ==> Search(cs, a) == Sat(p)) &&
      (!HasConflict(cs, p) && LowestFree(p, 1) < |p| ==>
         var v := LowestFree(p, 1);
         NumFree(p[v := 0]) < NumFree(a) && NumFree(p[v := 1]) < NumFree(a) &&
         Search(cs, a) == if Search(cs, p[v := 0]).Sat? then Search(cs, p[v := 0]) else Search(cs, p[v := 1]))
  {
    var p := Propagate(cs, a).assignment;
    if !HasConflict(cs, p) && LowestFree(p, 1) < |p| {
      var v := LowestFree(p, 1);
      NumFreeAssign(p, v, 0);
      NumFreeAssign(p, v, 1);
    }
  }

  /** A model holds a model of `cs` extending `a`: same length and slot
      0, every variable 0 or 1, every value assigned in `a` kept, and every
      clause satisfied. */
  predicate IsModelOf(m: seq<int>, cs: seq<seq<int>>, a: seq<int>)
    requires |a| >= 1 && InRange(cs, |a| - 1)
  {
    |m| == |a| && m[0] == a[0] && Total(m) && Extends(m, a) && Satisfies(m, cs)
  }

  /** Soundness: a model the search finds is a total assignment that keeps
      every value of `a` and satisfies every clause. */
  lemma {:induction false} SearchSound(cs: seq<seq<int>>, a: seq<int>)
    requires ValidAssignment(a) && InRange(cs, |a| - 1)
    ensures Search(cs, a).Sat? ==> IsModelOf(Search(cs, a).model, cs, a)
  {
    SearchModelKeeps(cs, a);
    SearchModelSatisfies(cs, a);
  }

  /** A model found has the shape of `a` and keeps its values. */
  lemma {:induction false} SearchModelKeeps(cs: seq<seq<int>>, a: seq<int>)
    requires ValidAssignment(a) && InRange(cs, |a| - 1)
    ensures Search(cs, a).Sat? ==>
      |Search(cs, a).model| == |a| && Search(cs, a).model[0] == a[0] && Extends(Search(cs, a).model, a)
    decreases NumFree(a)
  {
    var p := Propagate(cs, a).assignment;
    if !HasConflict(cs, p) {
      var v := LowestFree(p, 1);
      if v < |p| {
        NumFreeAssign(p, v, 0);
        NumFreeAssign(p, v, 1);
        var b := if Search(cs, p[v := 0]).Sat? then p[v := 0] else p[v := 1];
        SearchModelKeeps(cs, b);
        if Search(cs, b).Sat? {
          ExtendsTrans(Search(cs, b).model, b, p);
          ExtendsTrans(Search(cs, b).model, p, a);
        }
      }
    }
  }

  /** A model found is total and satisfies every clause. */
  lemma {:induction false} SearchModelSatisfies(cs: seq<seq<int>>, a: seq<int>)
    requires ValidAssignment(a) && InRange(cs, |a| - 1)
    ensures Search(cs, a).Sat? ==> |Search(cs, a).model| == |a| && Total(Search(cs, a).model) &&
                                   Satisfies(Search(cs, a).model, cs)
    decreases NumFree(a)
  {
    var p := Propagate(cs, a).assignment;
    if !HasConflict(cs, p) {
      var v := LowestFree(p, 1);
      if v == |p| {
        TotalNoConflictSatisfies(cs, p);
      } else {
        NumFreeAssign(p, v, 0);
        NumFreeAssign(p, v, 1);
        SearchModelSatisfies(cs, p[v := 0]);
        SearchModelSatisfies(cs, p[v := 1]);
      }
    }
  }

  /** Branching is exhaustive: a total assignment gives the branch variable
      0 or 1, so refuting both children refutes the parent. */
  lemma BranchRefutes(cs: seq<seq<int>>, p: seq<int>, v: nat)
    requires InRange(cs, |p| - 1) && 1 <= v < |p| && p[v] == -1
    requires Refutes(cs, p[v := 0]) && Refutes(cs, p[v := 1])
    ensures Refutes(cs, p)
  {
    forall t | Extends(t, p) && Total(t) ensures !Satisfies(t, cs) {
      assert Extends(t, p[v := t[v]]);
    }
  }

  /** Refuting the propagated assignment refutes the one before propagation. */
  lemma PropagateRefutes(cs: seq<seq<int>>, a: seq<int>)
    requires ValidAssignment(a) && InRange(cs, |a| - 1)
    requires Refutes(cs, Propagate(cs, a).assignment)
    ensures Refutes(cs, a)
  {
    forall t | Extends(t, a) && Total(t) ensures !Satisfies(t, cs) {
      PropagateSound(cs, a, t);
    }
  }

  /** Completeness: when the search fails, no total assignment keeping the
      values of `a` satisfies the clauses. */
  lemma {:induction false} SearchComplete(cs: seq<seq<int>>, a: seq<int>)
    requires ValidAssignment(a) && InRange(cs, |a| - 1)
    ensures Search(cs, a).Unsat? ==> Refutes(cs, a)
    decreases NumFree(a)
  {
    var p := Propagate(cs, a).assignment;
    if Search(cs, a).Unsat? {
      if HasConflict(cs, p) {
        ConflictRefutes(cs, p);
      } else {
        var v := LowestFree(p, 1);
        NumFreeAssign(p, v, 0);
        NumFreeAssign(p, v, 1);
        SearchComplete(cs, p[v := 0]);
        SearchComplete(cs, p[v := 1]);
        BranchRefutes(cs, p, v);
      }
      PropagateRefutes(cs, a);
    }
  }

  /** The search fails exactly when the assignment cannot be completed to a
      model: both directions. */
  lemma SearchDecides(cs: seq<seq<int>>, a: seq<int>)
    requires ValidAssignment(a) && InRange(cs, |a| - 1)
    ensures Search(cs, a).Unsat? <==> Refutes(cs, a)
  {
    SearchComplete(cs, a);
    SearchSound(cs, a);
    if Search(cs, a).Sat? {
      var m := Search(cs, a).model;
      assert Extends(m, a) && Total(m) && Satisfies(m, cs);
    }
  }

  /** The root assignment of `solve`: slot 0 kept, every variable unassigned. */
  function Cleared(a: seq<int>): (r: seq<int>)
    requires |a| >= 1
    ensures |r| == |a| && r[0] == a[0] && ValidAssignment(r)
    ensures forall i :: 1 <= i < |r| ==> r[i] == -1
  {
    [a[0]] + seq(|a| - 1, _ => -1)
  }

  /** From the root, the search fails exactly when the formula is
      unsatisfiable. */
  lemma RootSearchDecides(cs: seq<seq<int>>, a: seq<int>)
    requires |a| >= 1 && InRange(cs, |a| - 1)
    ensures Search(cs, Cleared(a)).Unsat? <==> !Satisfiable(cs, |a| - 1)
  {
    var z := Cleared(a);
    SearchDecides(cs, z);
    SearchSound(cs, z);
    if Search(cs, z).Sat? {
      assert |Search(cs, z).model| == |a| - 1 + 1;
    } else {
      forall t | |t| == |a| && Total(t) ensures !Satisfies(t, cs) {
        assert Extends(t, z);
      }
    }
  }

  /** The literals `printSol` lists after "v ": for each variable in order,
      the variable itself when its value is nonzero, its negation otherwise. */
  function SolutionLine(a: seq<int>): (line: seq<int>)
    requires |a| >= 1
    ensures |line| == |a| - 1
    ensures forall i :: 0 <= i < |line| ==> Var(line[i]) == i + 1
  {
    seq(|a| - 1, i requires 0 <= i < |a| - 1 => if a[i + 1] != 0 then i + 1 else -(i + 1))
  }

  /** Some literal of `c` is listed in `line`. */
  predicate SharesLiteral(c: seq<int>, line: seq<int>) {
    exists j :: 0 <= j < |c| && c[j] in line
  }

  /** The printed line describes the model: on a total assignment every
      listed literal is true, and when the assignment satisfies the clauses
      every clause shares a literal with the line. */
  lemma SolutionLineModel(cs: seq<seq<int>>, a: seq<int>)
    requires |a| >= 1 && InRange(cs, |a| - 1) && Total(a)
    ensures forall i :: 0 <= i < |a| - 1 ==> IsTrue(a, SolutionLine(a)[i])
    ensures Satisfies(a, cs) ==> forall k :: 0 <= k < |cs| ==> SharesLiteral(cs[k], SolutionLine(a))
  {
    var line := SolutionLine(a);
    if Satisfies(a, cs) {
      forall k | 0 <= k < |cs| ensures SharesLiteral(cs[k], line) {
        var j :| 0 <= j < |cs[k]| && IsTrue(a, cs[k][j]);
        assert line[Var(cs[k][j]) - 1] == cs[k][j];
      }
    }
  }
}

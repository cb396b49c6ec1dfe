/** The general solver of src/naive.cpp: a `SATInstance` holding the
    variable count, the clause count, the assignment vector `vars` and the
    clauses, with the reader, unit propagation by rescanning, the conflict
    test and the recursive depth-first search. Every method is proved against
    the specification functions of UnitPropagation and Search. */
module Naive {
  import opened Cnf
  import opened UnitPropagation
  import opened Backtracking
  import opened Dimacs

  /** Every entry names a variable in 1..n. */
  predicate VarsIn(vs: seq<int>, n: int) {
    forall i :: 0 <= i < |vs| ==> 1 <= vs[i] <= n
  }

  lemma VarsInAppend(vs: seq<int>, x: int, n: int)
    requires VarsIn(vs, n) && 1 <= x <= n
    ensures VarsIn(vs + [x], n)
  {
  }

  class SatInstance {
    var varCnt: int
    var clauseCnt: int
    /** -1 unassigned, 0 false, 1 true; entry 0 is not a variable. */
    var vars: array<int>
    var clauses: seq<seq<int>>

    /** The shape every solver method relies on: one slot per variable plus
        slot 0, `clause_cnt` clauses, and literals naming variables 1..var_cnt. */
    ghost predicate Valid()
      reads this, vars
    {
      0 <= varCnt && vars.Length == varCnt + 1 && |clauses| == clauseCnt &&
      InRange(clauses, varCnt) && ValidAssignment(vars[..])
    }

    /** The instance before `read`: no variables, no clauses. */
    constructor ()
      ensures varCnt == 0 && clauseCnt == 0 && vars.Length == 0 && clauses == []
    {
      varCnt, clauseCnt := 0, 0;
      vars := new int[0];
      clauses := [];
    }

    /** `read`: on success the counts and the clauses are those of the input
        and `vars` has `var_cnt + 1` zero entries; when the input is rejected
        nothing changes. */
    method Read(ts: seq<Token>) returns (r: Result<Formula>)
      modifies this
      ensures r == Parse(ts)
      ensures r.Ok? ==> varCnt == r.value.varCnt && clauseCnt == r.value.clauseCnt &&
                        clauses == r.value.clauses && fresh(vars) && vars.Length == varCnt + 1 &&
                        forall i :: 0 <= i < vars.Length ==> vars[i] == 0
      ensures r.Ok? && InRange(clauses, varCnt) ==> Valid()
      ensures r.Err? ==> varCnt == old(varCnt) && clauseCnt == old(clauseCnt) &&
                         vars == old(vars) && clauses == old(clauses)
    {
      r := ReadTokens(ts);
      if r.Ok? {
        varCnt, clauseCnt := r.value.varCnt, r.value.clauseCnt;
        vars := new int[varCnt + 1](_ => 0);
        clauses := r.value.clauses;
      }
    }

    /** `getImpliedVar`: the literal of the first unit clause, 0 if none. */
    method GetImpliedVar() returns (lit: int)
      requires Valid()
      ensures lit == FirstImplied(clauses, vars[..])
    {
      var k := 0;
      while k < |clauses|
        invariant 0 <= k <= |clauses|
        invariant FirstImplied(clauses[k..], vars[..]) == FirstImplied(clauses, vars[..])
      {
        var clause := clauses[k];
        assert ClauseInRange(clause, varCnt);
        var unassignedCnt, unassignedLit, clauseVal := 0, 0, false;
        var j := 0;
        while j < |clause|
          invariant 0 <= j <= |clause|
          invariant ClauseInRange(clause[..j], varCnt)
          invariant unassignedCnt == FreeCount(vars[..], clause[..j])
          invariant unassignedLit == LastFree(vars[..], clause[..j])
          invariant clauseVal == AnyTrue(vars[..], clause[..j])
        {
          var l := clause[j];
          assert clause[..j + 1][..j] == clause[..j];
          if vars[Var(l)] == -1 {
            unassignedCnt := unassignedCnt + 1;
            unassignedLit := l;
          } else {
            clauseVal := clauseVal || (if l < 0 then vars[-l] == 0 else vars[l] != 0);
          }
          j := j + 1;
        }
        assert clause[..|clause|] == clause;
        assert clauses[k..][1..] == clauses[k + 1..];
        if unassignedCnt == 1 && !clauseVal {
          return unassignedLit;
        }
        k := k + 1;
      }
      return 0;
    }

    /** `conflictExists`: some clause has every literal assigned and false. */
    method ConflictExists() returns (b: bool)
      requires Valid()
      ensures b == HasConflict(clauses, vars[..])
    {
      var k := 0;
      while k < |clauses|
        invariant 0 <= k <= |clauses|
        invariant forall k' :: 0 <= k' < k ==> !Falsified(vars[..], clauses[k'])
      {
        var clause := clauses[k];
        assert ClauseInRange(clause, varCnt);
        var clauseVal := false;
        var j := 0;
        while j < |clause|
          invariant 0 <= j <= |clause|
          invariant !clauseVal
          invariant forall jj :: 0 <= jj < j ==> IsFalse(vars[..], clause[jj])
        {
          var l := clause[j];
          if vars[Var(l)] == -1 {
            clauseVal := true;
          } else {
            clauseVal := clauseVal || (if l < 0 then vars[-l] == 0 else vars[l] != 0);
          }
          if clauseVal {
            assert !IsFalse(vars[..], clause[j]);
            break;
          }
          j := j + 1;
        }
        if !clauseVal {
          return true;
        }
        k := k + 1;
      }
      return false;
    }

    /** `selectVar`: the lowest unassigned variable, or var_cnt + 1 when
        there is none. */
    method SelectVar() returns (v: int)
      requires Valid()
      ensures 1 <= v <= varCnt + 1
      ensures forall i :: 1 <= i < v ==> vars[i] != -1
      ensures v <= varCnt ==> vars[v] == -1
      ensures v == LowestFree(vars[..], 1)
    {
      var i := 1;
      while i <= varCnt
        invariant 1 <= i <= varCnt + 1
        invariant LowestFree(vars[..], i) == LowestFree(vars[..], 1)
      {
        if vars[i] == -1 {
          return i;
        }
        i := i + 1;
      }
      return varCnt + 1;
    }

    /** One assignment `vars[var] = x` (of `resolveImplications` and `backtrack`). */
    method SetVar(v: int, x: int)
      requires Valid() && 1 <= v <= varCnt && -1 <= x <= 1
      modifies vars
      ensures Valid()
      ensures vars[..] == old(vars[..])[v := x]
    {
      vars[v] := x;
    }

    /** `resolveImplications`: force unit literals until none is left; the
        new assignment is the propagated one and `implied` lists the forced
        variables in order. */
    method ResolveImplications() returns (implied: seq<int>)
      requires Valid()
      modifies vars
      ensures Valid()
      ensures vars[..] == Propagate(clauses, old(vars[..])).assignment
      ensures implied == Vars(Propagate(clauses, old(vars[..])).forced)
      ensures VarsIn(implied, varCnt)
    {
      ghost var a0 := vars[..];
      ghost var cur := a0;
      ghost var lits: seq<int> := [];
      implied := [];
      var impliedVar := GetImpliedVar();
      while impliedVar != 0
        invariant cur == vars[..] && OnTrail(clauses, a0, cur, lits)
        invariant impliedVar == FirstImplied(clauses, cur)
        invariant implied == Vars(lits) && VarsIn(implied, varCnt)
        decreases NumFree(cur)
      {
        PropagateTrailStep(clauses, a0, cur, lits);
        VarsAppend(lits, impliedVar);
        VarsInAppend(implied, Var(impliedVar), varCnt);
        cur := Force(cur, impliedVar);
        SetVar(Var(impliedVar), if impliedVar < 0 then 0 else 1);
        implied := implied + [Var(impliedVar)];
        lits := lits + [impliedVar];
        impliedVar := GetImpliedVar();
      }
      PropagateTrailEnd(clauses, a0, cur, lits);
    }

    /** The undo loop over `implied`: every listed variable becomes unassigned. */
    method Unassign(vs: seq<int>)
      requires Valid()
      requires VarsIn(vs, varCnt)
      modifies vars
      ensures Valid()
      ensures vars[..] == Reset(old(vars[..]), vs)
    {
      var k := 0;
      while k < |vs|
        invariant 0 <= k <= |vs|
        invariant Valid()
        invariant vars[..] == Reset(old(vars[..]), vs[..k])
      {
        assert forall x :: x in vs[..k + 1] <==> x in vs[..k] || x == vs[k] by {
          assert vs[..k + 1] == vs[..k] + [vs[k]];
        }
        vars[vs[k]] := -1;
        k := k + 1;
      }
      assert vs[..|vs|] == vs;
    }

    /** `backtrack` on the current assignment `a`: propagate, give up on a
        conflict, otherwise branch on the lowest unassigned variable. It
        succeeds exactly when the search function does, leaves that model in
        `vars`, and on failure restores `vars` to `a`. */
    method Backtrack(ghost a: seq<int>) returns (s: Status)
      requires Valid() && vars[..] == a
      modifies vars
      ensures Valid()
      ensures s == Solved <==> Search(clauses, a).Sat?
      ensures s == Solved ==> vars[..] == Search(clauses, a).model
      ensures s == Unsolvable ==> vars[..] == a
      decreases NumFree(a), 1
    {
      SearchStep(clauses, a);
      var implied := ResolveImplications();
      ghost var p := vars[..];
      PropagateUndo(clauses, a);
      var conflict := ConflictExists();
      if conflict {
        Unassign(implied);
        return Unsolvable;
      }
      var v := SelectVar();
      if v == varCnt + 1 {
        return Solved;
      }
      s := Branch(p, v);
      if s == Unsolvable {
        Unassign(implied);
      }
    }

    /** The two recursive tries of `backtrack` on the propagated assignment
        `p`: `var` false, then `var` true; when both fail `var` is left
        unassigned again. */
    method Branch(ghost p: seq<int>, v: int) returns (s: Status)
      requires Valid() && vars[..] == p && 1 <= v <= varCnt && p[v] == -1
      modifies vars
      ensures Valid()
      ensures s == Solved <==> Search(clauses, p[v := 0]).Sat? || Search(clauses, p[v := 1]).Sat?
      ensures s == Solved ==> vars[..] == if Search(clauses, p[v := 0]).Sat? then Search(clauses, p[v := 0]).model
                                          else Search(clauses, p[v := 1]).model
      ensures s == Unsolvable ==> vars[..] == p
      decreases NumFree(p), 0
    {
      NumFreeAssign(p, v, 0);
      NumFreeAssign(p, v, 1);
      SetVar(v, 0);
      s := Backtrack(p[v := 0]);
      if s == Solved {
        return Solved;
      }
      UpdateTwice(p, v, 0, 1);
      SetVar(v, 1);
      s := Backtrack(p[v := 1]);
      if s == Solved {
        return Solved;
      }
      UpdateTwice(p, v, 1, -1);
      SetVar(v, -1);
      return Unsolvable;
    }

    /** `solve`: unassign every variable and search. It reports `Solved`
        exactly when the clauses are satisfiable, and then `vars` is a model. */
    method Solve() returns (s: Status)
      requires Valid()
      modifies vars
      ensures Valid()
      ensures s == Solved <==> Satisfiable(clauses, varCnt)
      ensures s == Solved ==> Total(vars[..]) && Satisfies(vars[..], clauses)
      ensures s == Solved <==> Search(clauses, Cleared(old(vars[..]))).Sat?
      ensures s == Solved ==> vars[..] == Search(clauses, Cleared(old(vars[..]))).model
      ensures s == Unsolvable ==> vars[..] == Cleared(old(vars[..]))
    {
      ghost var a := vars[..];
      var i := 1;
      while i <= varCnt
        invariant 1 <= i <= varCnt + 1
        invariant vars[0] == a[0]
        invariant forall j :: 1 <= j < i ==> vars[j] == -1
        invariant forall j :: i <= j <= varCnt ==> vars[j] == a[j]
      {
        vars[i] := -1;
        i := i + 1;
      }
      ghost var z := Cleared(a);
      assert vars[..] == z;
      RootSearchDecides(clauses, a);
      SearchSound(clauses, z);
      s := Backtrack(z);
    }
  }
}

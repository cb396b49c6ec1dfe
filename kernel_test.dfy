/** The host solver of src/kernal_test.cpp: the same `SATInstance` and
    depth-first search as the general solver, but the clauses are one flat
    vector read as consecutive triples, and propagation and the conflict test
    are one call of the kernel, whose conflict flag comes back in `vars[0]`.
    A failed branch is undone by restoring a copy of `vars` taken on entry. */
module KernelTest {
  import opened Cnf
  import opened UnitPropagation
  import opened Backtracking
  import opened Dimacs
  import opened Kernel

  /** On a formula whose clauses all have three literals, the flat vector
      `read` builds groups back into the formula, so the kernel host searches
      exactly as the general solver does. */
  lemma EnginesAgree(cs: seq<seq<int>>, a: seq<int>)
    requires AllTernary(cs) && ValidAssignment(a) && InRange(cs, |a| - 1)
    ensures 3 * |cs| == |Flatten(cs)| && Group3(Flatten(cs), |cs|) == cs
    ensures Search(Group3(Flatten(cs), |cs|), a) == Search(cs, a)
  {
    GroupFlatten(cs);
  }

  class SatInstance {
    var varCnt: int
    var clauseCnt: int
    /** -1 unassigned, 0 false, 1 true; entry 0 carries the kernel's
        conflict flag and is 0 between calls. */
    var vars: array<int>
    /** The literals of all clauses, in order, without terminating zeros. */
    var clauses: seq<int>

    /** The clauses the kernel sees: `clause_cnt` consecutive triples. */
    ghost function Grouped(): seq<seq<int>>
      reads this
      requires 0 <= clauseCnt && 3 * clauseCnt <= |clauses|
    {
      Group3(clauses, clauseCnt)
    }

    /** The shape the kernel call relies on: one slot per variable plus
        slot 0, which is 0, at least `3 * clause_cnt` literals, and literals
        naming variables 1..var_cnt. */
    ghost predicate Valid()
      reads this, vars
    {
      0 <= varCnt && 0 <= clauseCnt && vars.Length == varCnt + 1 && 3 * clauseCnt <= |clauses| &&
      InRange(Grouped(), varCnt) && ValidAssignment(vars[..]) && vars[0] == 0
    }

    /** The instance before `read`: no variables, no clauses. */
    constructor ()
      ensures varCnt == 0 && clauseCnt == 0 && vars.Length == 0 && clauses == []
    {
      varCnt, clauseCnt := 0, 0;
      vars := new int[0];
      clauses := [];
    }

    /** `read`: as in the general solver, but every literal is appended to
        the flat vector. The instance is valid when the literals cover
        `clause_cnt` triples naming variables 1..var_cnt, which holds for a
        formula whose clauses all have three literals (`GroupFlatten`). */
    method Read(ts: seq<Token>) returns (r: Result<Formula>)
      modifies this
      ensures r == Parse(ts)
      ensures r.Ok? ==> varCnt == r.value.varCnt && clauseCnt == r.value.clauseCnt &&
                        clauses == Flatten(r.value.clauses) && fresh(vars) && vars.Length == varCnt + 1 &&
                        forall i :: 0 <= i < vars.Length ==> vars[i] == 0
      ensures r.Ok? && 3 * clauseCnt <= |clauses| && InRange(Group3(clauses, clauseCnt), varCnt) ==> Valid()
      ensures r.Err? ==> varCnt == old(varCnt) && clauseCnt == old(clauseCnt) &&
                         vars == old(vars) && clauses == old(clauses)
    {
      r := ReadTokens(ts);
      if r.Ok? {
        varCnt, clauseCnt := r.value.varCnt, r.value.clauseCnt;
        vars := new int[varCnt + 1](_ => 0);
        clauses := Flatten(r.value.clauses);
      }
    }

    /** `selectVar`: the lowest unassigned variable, or var_cnt + 1 when
        there is none. */
    method SelectVar() returns (v: int)
      requires Valid()
      ensures 1 <= v <= varCnt + 1
      ensures forall i :: 1 <= i < v ==> vars[i] != -1
      ensures v <= varCnt ==> vars[v] == -1
      ensures v == LowestFree(vars[..], 1)
    {
      var i := 1;
      while i <= varCnt
        invariant 1 <= i <= varCnt + 1
        invariant LowestFree(vars[..], i) == LowestFree(vars[..], 1)
      {
        if vars[i] == -1 {
          return i;
        }
        i := i + 1;
      }
      return varCnt + 1;
    }

    /** One assignment `vars[var] = x` of `backtrack`. */
    method SetVar(v: int, x: int)
      requires Valid() && 1 <= v <= varCnt && -1 <= x <= 1
      modifies vars
      ensures Valid()
      ensures vars[..] == old(vars[..])[v := x]
    {
      vars[v] := x;
    }

    /** `vars = curr`: copy a snapshot of the same size back. */
    method Restore(snapshot: seq<int>)
      requires |snapshot| == vars.Length
      modifies vars
      ensures vars[..] == snapshot
    {
      forall i | 0 <= i < vars.Length {
        vars[i] := snapshot[i];
      }
    }

    /** `backtrack` on the current assignment `a`: snapshot, run the kernel,
        give up on a conflict, otherwise branch on the lowest unassigned
        variable. It succeeds exactly when the search function does on the
        grouped clauses, leaves that model in `vars`, and on failure restores
        `vars` to `a`. */
    method Backtrack(ghost a: seq<int>) returns (s: Status)
      requires Valid() && vars[..] == a
      modifies vars
      ensures Valid()
      ensures s == Solved <==> Search(Grouped(), a).Sat?
      ensures s == Solved ==> vars[..] == Search(Grouped(), a).model
      ensures s == Unsolvable ==> vars[..] == a
      decreases NumFree(a), 1
    {
      SearchStep(Grouped(), a);
      ghost var p := Propagate(Grouped(), a).assignment;
      var curr := vars[..];
      ghost var forced := Kernal(clauses, vars, varCnt, clauseCnt);
      if vars[0] != 0 {
        Restore(curr);
        return Unsolvable;
      }
      assert vars[..] == p by {
        assert vars[..][1..] == p[1..];
      }
      var v := SelectVar();
      if v == varCnt + 1 {
        return Solved;
      }
      s := Branch(p, v);
      if s == Unsolvable {
        Restore(curr);
      }
    }

    /** The two recursive tries of `backtrack` on the propagated assignment
        `p`: `var` false, then `var` true. A failed try has already restored
        its own entry state, so after two failures `var` is still true. */
    method Branch(ghost p: seq<int>, v: int) returns (s: Status)
      requires Valid() && vars[..] == p && 1 <= v <= varCnt && p[v] == -1
      modifies vars
      ensures Valid()
      ensures s == Solved <==> Search(Grouped(), p[v := 0]).Sat? || Search(Grouped(), p[v := 1]).Sat?
      ensures s == Solved ==> vars[..] == if Search(Grouped(), p[v := 0]).Sat? then Search(Grouped(), p[v := 0]).model
                                          else Search(Grouped(), p[v := 1]).model
      ensures s == Unsolvable ==> vars[..] == p[v := 1]
      decreases NumFree(p), 0
    {
      NumFreeAssign(p, v, 0);
      NumFreeAssign(p, v, 1);
      SetVar(v, 0);
      s := Backtrack(p[v := 0]);
      if s == Solved {
        return Solved;
      }
      UpdateTwice(p, v, 0, 1);
      SetVar(v, 1);
      s := Backtrack(p[v := 1]);
    }

    /** `solve`: unassign every variable and search. It reports `Solved`
        exactly when the grouped clauses are satisfiable, and then `vars` is
        a model of them. */
    method Solve() returns (s: Status)
      requires Valid()
      modifies vars
      ensures Valid()
      ensures s == Solved <==> Satisfiable(Grouped(), varCnt)
      ensures s == Solved ==> Total(vars[..]) && Satisfies(vars[..], Grouped())
      ensures s == Solved <==> Search(Grouped(), Cleared(old(vars[..]))).Sat?
      ensures s == Solved ==> vars[..] == Search(Grouped(), Cleared(old(vars[..]))).model
      ensures s == Unsolvable ==> vars[..] == Cleared(old(vars[..]))
    {
      ghost var a := vars[..];
      var i := 1;
      while i <= varCnt
        invariant 1 <= i <= varCnt + 1
        invariant vars[0] == a[0]
        invariant forall j :: 1 <= j < i ==> vars[j] == -1
        invariant forall j :: i <= j <= varCnt ==> vars[j] == a[j]
      {
        vars[i] := -1;
        i := i + 1;
      }
      ghost var z := Cleared(a);
      assert vars[..] == z;
      RootSearchDecides(Grouped(), a);
      SearchSound(Grouped(), z);
      s := Backtrack(z);
    }
  }
}

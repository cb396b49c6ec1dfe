/** Unit propagation and the conflict test, as the general engine performs
    them (`getImpliedVar`, `resolveImplications`, `conflictExists` in
    src/naive.cpp). These functions are the specifications that the
    in-place methods of both solvers are proved against. */
module UnitPropagation {
  import opened Cnf

  /** Occurrences of literals in `c` whose variable is unassigned: the value
      of `unassigned_cnt` after scanning `c`. */
  function FreeCount(a: seq<int>, c: seq<int>): nat
    requires ClauseInRange(c, |a| - 1)
    decreases |c|
  {
    if c == [] then 0
    else FreeCount(a, c[..|c| - 1]) + (if a[Var(c[|c| - 1])] == -1 then 1 else 0)
  }

  /** The last literal of `c` with an unassigned variable, 0 when there is
      none: the value of `unassigned_i` after scanning `c`. */
  function LastFree(a: seq<int>, c: seq<int>): (lit: int)
    requires ClauseInRange(c, |a| - 1)
    ensures FreeCount(a, c) == 0 <==> lit == 0
    ensures lit != 0 ==> 1 <= Var(lit) < |a| && a[Var(lit)] == -1
    decreases |c|
  {
    if c == [] then 0
    else if a[Var(c[|c| - 1])] == -1 then c[|c| - 1]
    else LastFree(a, c[..|c| - 1])
  }

  /** Some literal of `c` evaluates to true: the `clause_val` accumulator. */
  predicate AnyTrue(a: seq<int>, c: seq<int>)
    requires ClauseInRange(c, |a| - 1)
    decreases |c|
  {
    c != [] && (AnyTrue(a, c[..|c| - 1]) || IsTrue(a, c[|c| - 1]))
  }

  /** The test of `getImpliedVar`: exactly one unassigned literal and no
      assigned literal is true. */
  predicate IsUnit(a: seq<int>, c: seq<int>)
    requires ClauseInRange(c, |a| - 1)
  {
    FreeCount(a, c) == 1 && !AnyTrue(a, c)
  }

  /** Position `j` holds the only unassigned literal of `c`, and every other
      literal is false. */
  predicate UnitAt(a: seq<int>, c: seq<int>, j: int)
    requires ClauseInRange(c, |a| - 1)
  {
    0 <= j < |c| && a[Var(c[j])] == -1 &&
    forall i :: 0 <= i < |c| && i != j ==> IsFalse(a, c[i])
  }

  lemma {:induction false} AnyTrueIff(a: seq<int>, c: seq<int>)
    requires ClauseInRange(c, |a| - 1)
    ensures AnyTrue(a, c) <==> exists j :: 0 <= j < |c| && IsTrue(a, c[j])
    decreases |c|
  {
    if c != [] {
      var c' := c[..|c| - 1];
      AnyTrueIff(a, c');
      assert forall j :: 0 <= j < |c'| ==> c'[j] == c[j];
    }
  }

  /** A clause without unassigned literals and without true literals has
      only false literals. */
  lemma {:induction false} NoFreeNoTrueIsFalsified(a: seq<int>, c: seq<int>)
    requires ValidAssignment(a) && ClauseInRange(c, |a| - 1)
    requires FreeCount(a, c) == 0 && !AnyTrue(a, c)
    ensures Falsified(a, c)
    decreases |c|
  {
    if c != [] {
      var c' := c[..|c| - 1];
      NoFreeNoTrueIsFalsified(a, c');
      assert forall j :: 0 <= j < |c'| ==> c'[j] == c[j];
    }
  }

  /** Both directions of the unit test: `IsUnit` holds exactly when one
      position carries the only unassigned literal and all others are false,
      and that literal is what `getImpliedVar` returns. */
  lemma {:induction false} UnitIff(a: seq<int>, c: seq<int>)
    requires ValidAssignment(a) && ClauseInRange(c, |a| - 1)
    ensures IsUnit(a, c) ==> exists j :: UnitAt(a, c, j) && c[j] == LastFree(a, c)
    ensures forall j :: UnitAt(a, c, j) ==> IsUnit(a, c) && LastFree(a, c) == c[j]
    decreases |c|
  {
    if c != [] {
      var n := |c| - 1;
      var c' := c[..n];
      UnitIff(a, c');
      AnyTrueIff(a, c);
      AnyTrueIff(a, c');
      assert forall j :: 0 <= j < n ==> c'[j] == c[j];
      if IsUnit(a, c) {
        if a[Var(c[n])] == -1 {
          NoFreeNoTrueIsFalsified(a, c');
          assert UnitAt(a, c, n);
        } else {
          var j :| UnitAt(a, c', j) && c'[j] == LastFree(a, c');
          assert UnitAt(a, c, j);
        }
      }
      forall j | UnitAt(a, c, j) ensures IsUnit(a, c) && LastFree(a, c) == c[j] {
        if j == n {
          FreeAllAssigned(a, c');
        } else {
          assert UnitAt(a, c', j);
        }
      }
    }
  }

  /** A clause whose literals are all false has no unassigned literal. */
  lemma {:induction false} FreeAllAssigned(a: seq<int>, c: seq<int>)
    requires ClauseInRange(c, |a| - 1)
    requires Falsified(a, c)
    ensures FreeCount(a, c) == 0
    decreases |c|
  {
    if c != [] {
      FreeAllAssigned(a, c[..|c| - 1]);
    }
  }

  /** The literal `getImpliedVar` returns: the unassigned literal of the
      first unit clause, scanning in order; 0 when no clause is unit. */
  function FirstImplied(cs: seq<seq<int>>, a: seq<int>): (lit: int)
    requires InRange(cs, |a| - 1)
    ensures lit != 0 ==> 1 <= Var(lit) < |a| && a[Var(lit)] == -1
    decreases |cs|
  {
    if cs == [] then 0
    else if IsUnit(a, cs[0]) then LastFree(a, cs[0])
    else FirstImplied(cs[1..], a)
  }

  /** `FirstImplied` is 0 exactly when no clause is unit; otherwise it is the
      literal of the first unit clause. */
  lemma {:induction false} FirstImpliedIff(cs: seq<seq<int>>, a: seq<int>)
    requires InRange(cs, |a| - 1)
    ensures FirstImplied(cs, a) == 0 <==> forall k :: 0 <= k < |cs| ==> !IsUnit(a, cs[k])
    ensures FirstImplied(cs, a) != 0 ==>
      exists k :: 0 <= k < |cs| && IsUnit(a, cs[k]) && FirstImplied(cs, a) == LastFree(a, cs[k]) &&
        forall k' :: 0 <= k' < k ==> !IsUnit(a, cs[k'])
    decreases |cs|
  {
    if cs != [] {
      FirstImpliedIff(cs[1..], a);
      assert forall k :: 1 <= k < |cs| ==> cs[k] == cs[1..][k - 1];
      if !IsUnit(a, cs[0]) && FirstImplied(cs, a) != 0 {
        var k :| 0 <= k < |cs| - 1 && IsUnit(a, cs[1..][k]) && FirstImplied(cs, a) == LastFree(a, cs[1..][k]) &&
          forall k' :: 0 <= k' < k ==> !IsUnit(a, cs[1..][k']);
        assert forall k' :: 0 <= k' < k + 1 ==> !IsUnit(a, cs[k']) by {
          forall k' | 1 <= k' < k + 1 ensures !IsUnit(a, cs[k']) {
            assert cs[k'] == cs[1..][k' - 1];
          }
        }
      }
    }
  }

  /** The assignment made for a forced literal: 0 for a negative literal, 1
      for a positive one, so that the literal becomes true. */
  function Force(a: seq<int>, lit: int): (r: seq<int>)
    requires 1 <= Var(lit) < |a|
    ensures |r| == |a| && IsTrue(r, lit)
    ensures forall i :: 0 <= i < |a| && i != Var(lit) ==> r[i] == a[i]
  {
    a[Var(lit) := if lit < 0 then 0 else 1]
  }

  /** Result of propagation: the new assignment and the literals forced, in
      the order they were forced. */
  datatype Propagated = Propagated(assignment: seq<int>, forced: seq<int>)

  /** `resolveImplications`: force the first unit clause's literal and rescan
      from the first clause, until no clause is unit. */
  function Propagate(cs: seq<seq<int>>, a: seq<int>): (r: Propagated)
    requires ValidAssignment(a) && InRange(cs, |a| - 1)
    ensures ValidAssignment(r.assignment) && |r.assignment| == |a|
    ensures r.assignment[0] == a[0] && Extends(r.assignment, a)
    ensures FirstImplied(cs, r.assignment) == 0
    ensures NumFree(r.assignment) + |r.forced| == NumFree(a)
    decreases NumFree(a)
  {
    var lit := FirstImplied(cs, a);
    if lit == 0 then Propagated(a, [])
    else
      NumFreeAssign(a, Var(lit), if lit < 0 then 0 else 1);
      var r := Propagate(cs, Force(a, lit));
      Propagated(r.assignment, [lit] + r.forced)
  }

  /** One step of propagation: with a unit clause present, propagating is
      forcing the first unit literal and propagating from there; without
      one, nothing changes. */
  lemma PropagateStep(cs: seq<seq<int>>, a: seq<int>)
    requires ValidAssignment(a) && InRange(cs, |a| - 1)
    ensures FirstImplied(cs, a) == 0 ==> Propagate(cs, a) == Propagated(a, [])
    ensures FirstImplied(cs, a) != 0 ==>
      ValidAssignment(Force(a, FirstImplied(cs, a))) &&
      NumFree(Force(a, FirstImplied(cs, a))) == NumFree(a) - 1 &&
      Propagate(cs, Force(a, FirstImplied(cs, a))).assignment == Propagate(cs, a).assignment &&
      Propagate(cs, a).forced == [FirstImplied(cs, a)] + Propagate(cs, Force(a, FirstImplied(cs, a))).forced
  {
    var lit := FirstImplied(cs, a);
    if lit != 0 {
      NumFreeAssign(a, Var(lit), if lit < 0 then 0 else 1);
    }
  }

  /** `a` lies on the way from `a0` to its propagation, and `done` lists
      the literals forced on the way so far. */
  ghost predicate OnTrail(cs: seq<seq<int>>, a0: seq<int>, a: seq<int>, done: seq<int>)
    requires ValidAssignment(a0) && InRange(cs, |a0| - 1)
  {
    ValidAssignment(a) && |a| == |a0| &&
    Propagate(cs, a).assignment == Propagate(cs, a0).assignment &&
    Propagate(cs, a0).forced == done + Propagate(cs, a).forced
  }

  /** Loop step of `resolveImplications`: forcing the next implied literal
      stays on the trail, records the literal, and lowers the number of free
      variables. */
  lemma PropagateTrailStep(cs: seq<seq<int>>, a0: seq<int>, a: seq<int>, done: seq<int>)
    requires ValidAssignment(a0) && InRange(cs, |a0| - 1) && OnTrail(cs, a0, a, done)
    requires FirstImplied(cs, a) != 0
    ensures OnTrail(cs, a0, Force(a, FirstImplied(cs, a)), done + [FirstImplied(cs, a)])
    ensures NumFree(Force(a, FirstImplied(cs, a))) < NumFree(a)
  {
    var lit := FirstImplied(cs, a);
    PropagateStep(cs, a);
    AppendAssoc(done, [lit], Propagate(cs, Force(a, lit)).forced);
  }

  /** Loop exit of `resolveImplications`: with no implied literal left, the
      trail has reached the propagated assignment and `done` is everything
      forced. */
  lemma PropagateTrailEnd(cs: seq<seq<int>>, a0: seq<int>, a: seq<int>, done: seq<int>)
    requires ValidAssignment(a0) && InRange(cs, |a0| - 1) && OnTrail(cs, a0, a, done)
    requires FirstImplied(cs, a) == 0
    ensures a == Propagate(cs, a0).assignment && done == Propagate(cs, a0).forced
  {
    PropagateStep(cs, a);
    assert done + [] == done;
  }

  lemma AppendAssoc(x: seq<int>, y: seq<int>, z: seq<int>)
    ensures x + (y + z) == (x + y) + z
  {
  }

  /** The variables of a list of literals: the `implied` vector. */
  function Vars(lits: seq<int>): (vs: seq<int>)
    ensures |vs| == |lits| && forall i :: 0 <= i < |lits| ==> vs[i] == Var(lits[i])
  {
    if lits == [] then [] else [Var(lits[0])] + Vars(lits[1..])
  }

  lemma VarsAppend(lits: seq<int>, lit: int)
    ensures Vars(lits + [lit]) == Vars(lits) + [Var(lit)]
  {
  }

  /** The `i`-th forced literal names a variable that was unassigned in `a`
      and evaluates to true in the propagated assignment. */
  predicate ForcedFromFree(a: seq<int>, r: Propagated, i: int)
    requires 0 <= i < |r.forced|
  {
    1 <= Var(r.forced[i]) < |a| && a[Var(r.forced[i])] == -1 &&
    |r.assignment| == |a| && IsTrue(r.assignment, r.forced[i])
  }

  /** No variable occurs twice among the literals. */
  predicate DistinctVars(lits: seq<int>) {
    forall i, j :: 0 <= i < j < |lits| ==> Var(lits[i]) != Var(lits[j])
  }

  /** Every forced literal's variable was unassigned before propagation,
      and the literal is true after it: a variable is set only from -1, and
      to the value that makes its literal true. */
  lemma {:induction false} PropagateForcedWereFree(cs: seq<seq<int>>, a: seq<int>)
    requires ValidAssignment(a) && InRange(cs, |a| - 1)
    ensures forall i :: 0 <= i < |Propagate(cs, a).forced| ==> ForcedFromFree(a, Propagate(cs, a), i)
    decreases NumFree(a)
  {
    var lit := FirstImplied(cs, a);
    if lit != 0 {
      var a' := Force(a, lit);
      NumFreeAssign(a, Var(lit), if lit < 0 then 0 else 1);
      PropagateForcedWereFree(cs, a');
      var r' := Propagate(cs, a');
      var r := Propagate(cs, a);
      assert r.forced == [lit] + r'.forced;
      forall i | 0 <= i < |r.forced| ensures ForcedFromFree(a, r, i) {
        if i == 0 {
          assert a'[Var(lit)] != -1;
        } else {
          assert r.forced[i] == r'.forced[i - 1];
          assert ForcedFromFree(a', r', i - 1);
        }
      }
    }
  }

  /** No variable is forced twice, so `implied` has no duplicates. */
  lemma {:induction false} PropagateForcedDistinct(cs: seq<seq<int>>, a: seq<int>)
    requires ValidAssignment(a) && InRange(cs, |a| - 1)
    ensures DistinctVars(Propagate(cs, a).forced)
    decreases NumFree(a)
  {
    var lit := FirstImplied(cs, a);
    if lit != 0 {
      var a' := Force(a, lit);
      NumFreeAssign(a, Var(lit), if lit < 0 then 0 else 1);
      PropagateForcedDistinct(cs, a');
      PropagateForcedWereFree(cs, a');
      var f := Propagate(cs, a').forced;
      forall k | 0 <= k < |f| ensures Var(f[k]) != Var(lit) {
        assert ForcedFromFree(a', Propagate(cs, a'), k);
      }
      DistinctCons(lit, f);
    }
  }

  lemma DistinctCons(lit: int, f: seq<int>)
    requires DistinctVars(f) && forall k :: 0 <= k < |f| ==> Var(f[k]) != Var(lit)
    ensures DistinctVars([lit] + f)
  {
    forall i, j | 0 <= i < j < |[lit] + f| ensures Var(([lit] + f)[i]) != Var(([lit] + f)[j]) {
      if i > 0 {
        assert ([lit] + f)[i] == f[i - 1];
      }
      assert ([lit] + f)[j] == f[j - 1];
    }
  }

  /** Propagation changes no entry (slot 0 included) other than the forced
      variables. */
  lemma {:induction false} PropagateFrame(cs: seq<seq<int>>, a: seq<int>)
    requires ValidAssignment(a) && InRange(cs, |a| - 1)
    ensures forall x :: 0 <= x < |a| && x !in Vars(Propagate(cs, a).forced) ==>
      Propagate(cs, a).assignment[x] == a[x]
    decreases NumFree(a)
  {
    var lit := FirstImplied(cs, a);
    if lit != 0 {
      var a' := Force(a, lit);
      NumFreeAssign(a, Var(lit), if lit < 0 then 0 else 1);
      PropagateFrame(cs, a');
      var r' := Propagate(cs, a');
      var r := Propagate(cs, a);
      assert r.forced == [lit] + r'.forced;
      assert Vars(r.forced) == [Var(lit)] + Vars(r'.forced);
    }
  }

  /** Reset the listed variables to unassigned (undoing `implied`). */
  function Reset(a: seq<int>, vs: seq<int>): (r: seq<int>)
  {
    seq(|a|, i requires 0 <= i < |a| => if i in vs then -1 else a[i])
  }

  /** Unassigning the implied variables undoes propagation exactly. */
  lemma PropagateUndo(cs: seq<seq<int>>, a: seq<int>)
    requires ValidAssignment(a) && InRange(cs, |a| - 1)
    ensures Reset(Propagate(cs, a).assignment, Vars(Propagate(cs, a).forced)) == a
  {
    PropagateForcedWereFree(cs, a);
    PropagateFrame(cs, a);
    var r := Propagate(cs, a);
    forall x | 0 <= x < |a| ensures Reset(r.assignment, Vars(r.forced))[x] == a[x] {
      if x in Vars(r.forced) {
        var i :| 0 <= i < |r.forced| && Vars(r.forced)[i] == x;
        assert ForcedFromFree(a, r, i);
      }
    }
  }

  /** A total assignment that keeps the values of `a` and satisfies a clause
      that is unit at position `j` makes that clause's literal true. */
  lemma UnitForcedInModel(a: seq<int>, c: seq<int>, j: int, t: seq<int>)
    requires ValidAssignment(a) && ClauseInRange(c, |a| - 1) && UnitAt(a, c, j)
    requires Extends(t, a) && Total(t) && Satisfied(t, c)
    ensures Extends(t, Force(a, c[j]))
  {
    var j' :| 0 <= j' < |c| && IsTrue(t, c[j']);
    if j' != j {
      assert IsFalse(a, c[j']);
    }
  }

  /** Propagation is sound: a total assignment that keeps the values of `a`
      and satisfies every clause also keeps every forced value. */
  lemma {:induction false} PropagateSound(cs: seq<seq<int>>, a: seq<int>, t: seq<int>)
    requires ValidAssignment(a) && InRange(cs, |a| - 1)
    requires Extends(t, a) && Total(t)
    ensures Satisfies(t, cs) ==> Extends(t, Propagate(cs, a).assignment)
    decreases NumFree(a)
  {
    var lit := FirstImplied(cs, a);
    if lit != 0 {
      FirstImpliedIff(cs, a);
      var k :| 0 <= k < |cs| && IsUnit(a, cs[k]) && lit == LastFree(a, cs[k]);
      UnitIff(a, cs[k]);
      var j :| UnitAt(a, cs[k], j) && cs[k][j] == lit;
      if Satisfies(t, cs) {
        UnitForcedInModel(a, cs[k], j, t);
        NumFreeAssign(a, Var(lit), if lit < 0 then 0 else 1);
        PropagateSound(cs, Force(a, lit), t);
      }
    }
  }

  /** `conflictExists`'s clause test: every literal assigned and false. An
      empty clause is always falsified. */
  predicate Falsified(a: seq<int>, c: seq<int>)
    requires ClauseInRange(c, |a| - 1)
  {
    forall j :: 0 <= j < |c| ==> IsFalse(a, c[j])
  }

  predicate HasConflict(cs: seq<seq<int>>, a: seq<int>)
    requires InRange(cs, |a| - 1)
  {
    exists k :: 0 <= k < |cs| && Falsified(a, cs[k])
  }

  /** A conflict rules out every total assignment keeping the current values. */
  lemma ConflictRefutes(cs: seq<seq<int>>, a: seq<int>)
    requires InRange(cs, |a| - 1) && HasConflict(cs, a)
    ensures Refutes(cs, a)
  {
    var k :| 0 <= k < |cs| && Falsified(a, cs[k]);
    forall t | Extends(t, a) && Total(t) ensures !Satisfies(t, cs) {
      assert !Satisfied(t, cs[k]) by {
        forall j | 0 <= j < |cs[k]| ensures !IsTrue(t, cs[k][j]) {
          assert IsFalse(a, cs[k][j]);
        }
      }
    }
  }

  /** On a total assignment, absence of a conflict means every clause is
      satisfied. */
  lemma TotalNoConflictSatisfies(cs: seq<seq<int>>, a: seq<int>)
    requires ValidAssignment(a) && InRange(cs, |a| - 1)
    requires Total(a) && !HasConflict(cs, a)
    ensures Satisfies(a, cs)
  {
    forall k | 0 <= k < |cs| ensures Satisfied(a, cs[k]) {
      var j :| 0 <= j < |cs[k]| && !IsFalse(a, cs[k][j]);
      assert IsTrue(a, cs[k][j]);
    }
  }
}

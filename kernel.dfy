/** The accelerator kernel of src/kernal.cpp: unit propagation and the
    conflict test over a flat clause vector in which clause `i` is the
    literals at positions 3i, 3i+1 and 3i+2, writing the assignment `out`
    in place and the conflict flag to `out[0]`. The kernel is proved to
    compute exactly the propagation and conflict test of the general engine
    on the grouped clauses. */
module Kernel {
  import opened Cnf
  import opened UnitPropagation
  import Dimacs

  /** The clauses the kernel sees: the first `n` consecutive triples. */
  function Group3(flat: seq<int>, n: nat): (cs: seq<seq<int>>)
    requires 3 * n <= |flat|
    ensures |cs| == n
    ensures forall i :: 0 <= i < n ==> |cs[i]| == 3 && cs[i][0] == flat[3 * i] &&
                                       cs[i][1] == flat[3 * i + 1] && cs[i][2] == flat[3 * i + 2]
  {
    seq(n, i requires 0 <= i < n => flat[3 * i .. 3 * i + 3])
  }

  /** Every clause has exactly three literals. */
  predicate AllTernary(cs: seq<seq<int>>) {
    forall k :: 0 <= k < |cs| ==> |cs[k]| == 3
  }

  /** Flattening ternary clauses and regrouping them by three gives the
      clauses back: the flat vector of src/kernal_test.cpp holds the formula
      when every clause read has three literals. */
  lemma {:induction false} GroupFlatten(cs: seq<seq<int>>)
    requires AllTernary(cs)
    ensures |Dimacs.Flatten(cs)| == 3 * |cs|
    ensures Group3(Dimacs.Flatten(cs), |cs|) == cs
    decreases |cs|
  {
    if cs != [] {
      var rest := Dimacs.Flatten(cs[1..]);
      GroupFlatten(cs[1..]);
      var f := Dimacs.Flatten(cs);
      assert f == cs[0] + rest;
      var g := Group3(f, |cs|);
      var h := Group3(rest, |cs| - 1);
      forall i | 0 <= i < |cs| ensures g[i] == cs[i] {
        if i == 0 {
          TripleEq(g[0], cs[0]);
        } else {
          assert h[i - 1] == cs[i];
          assert f[3 * i] == rest[3 * (i - 1)] && f[3 * i + 1] == rest[3 * (i - 1) + 1] &&
                 f[3 * i + 2] == rest[3 * (i - 1) + 2];
          TripleEq(g[i], cs[i]);
        }
      }
    }
  }

  /** Two triples are equal when they agree at each position. */
  lemma TripleEq(x: seq<int>, y: seq<int>)
    requires |x| == 3 && |y| == 3 && x[0] == y[0] && x[1] == y[1] && x[2] == y[2]
    ensures x == y
  {
    assert x == [x[0], x[1], x[2]] && y == [y[0], y[1], y[2]];
  }

  /** C's `!` on an int. */
  function Not(x: int): int {
    if x == 0 then 1 else 0
  }

  /** C's `^` on two bits. */
  function Xor(x: int, y: int): int
    requires 0 <= x <= 1 && 0 <= y <= 1
  {
    if x == y then 0 else 1
  }

  /** At least two of the three literals are unassigned: the clause is skipped. */
  predicate TwoFree(a: seq<int>, c: seq<int>)
    requires |c| == 3 && ClauseInRange(c, |a| - 1)
  {
    (a[Var(c[0])] == -1 && a[Var(c[1])] == -1) || (a[Var(c[1])] == -1 && a[Var(c[2])] == -1) ||
    (a[Var(c[2])] == -1 && a[Var(c[0])] == -1)
  }

  /** The position after `j`, cyclically: `(j + 1) % 3`. */
  function Next(j: int): int {
    if j == 2 then 0 else j + 1
  }

  /** Position `j` is unassigned and the other two literals are false. */
  predicate ForcesAt(a: seq<int>, c: seq<int>, j: int)
    requires |c| == 3 && ClauseInRange(c, |a| - 1) && 0 <= j < 3
  {
    a[Var(c[j])] == -1 && IsFalse(a, c[Next(j)]) && IsFalse(a, c[Next(Next(j))])
  }

  /** The literal the kernel forces for one clause, 0 for none: the first
      position, in order, whose literal is the only unassigned one while the
      others are false. */
  function Forced3(a: seq<int>, c: seq<int>): int
    requires |c| == 3 && ClauseInRange(c, |a| - 1)
  {
    if TwoFree(a, c) then 0
    else if ForcesAt(a, c, 0) then c[0]
    else if ForcesAt(a, c, 1) then c[1]
    else if ForcesAt(a, c, 2) then c[2]
    else 0
  }

  /** The kernel's per-position test is the general unit test on a clause
      of three literals. */
  lemma ForcesAtIsUnitAt(a: seq<int>, c: seq<int>, j: int)
    requires |c| == 3 && ClauseInRange(c, |a| - 1) && 0 <= j < 3
    ensures ForcesAt(a, c, j) <==> UnitAt(a, c, j)
  {
    if UnitAt(a, c, j) {
      assert IsFalse(a, c[Next(j)]) && IsFalse(a, c[Next(Next(j))]);
    }
    if ForcesAt(a, c, j) {
      forall i | 0 <= i < 3 && i != j ensures IsFalse(a, c[i]) {
        assert i == Next(j) || i == Next(Next(j));
      }
    }
  }

  /** The kernel's test agrees with `getImpliedVar`'s on a ternary clause:
      it forces a literal exactly when the clause is unit, and that literal. */
  lemma Forced3IsUnit(a: seq<int>, c: seq<int>)
    requires ValidAssignment(a) && |c| == 3 && ClauseInRange(c, |a| - 1)
    ensures Forced3(a, c) == if IsUnit(a, c) then LastFree(a, c) else 0
  {
    UnitIff(a, c);
    ForcesAtIsUnitAt(a, c, 0);
    ForcesAtIsUnitAt(a, c, 1);
    ForcesAtIsUnitAt(a, c, 2);
    if IsUnit(a, c) {
      var j :| UnitAt(a, c, j) && c[j] == LastFree(a, c);
      assert !TwoFree(a, c);
    }
  }

  /** When every clause before `i` forces nothing, the first implied literal
      over all clauses is what clause `i` forces, or 0 when `i` is past the
      end. */
  lemma {:induction false} FirstForced(cs: seq<seq<int>>, a: seq<int>, i: nat)
    requires ValidAssignment(a) && InRange(cs, |a| - 1) && AllTernary(cs) && i <= |cs|
    requires forall k :: 0 <= k < i ==> Forced3(a, cs[k]) == 0
    ensures i == |cs| ==> FirstImplied(cs, a) == 0
    ensures i < |cs| && Forced3(a, cs[i]) != 0 ==> FirstImplied(cs, a) == Forced3(a, cs[i])
    decreases |cs|
  {
    if cs != [] {
      Forced3IsUnit(a, cs[0]);
      if i > 0 {
        assert forall k :: 0 <= k < i - 1 ==> cs[1..][k] == cs[k + 1];
        FirstForced(cs[1..], a, i - 1);
      }
    }
  }

  /** Lines 16-23 and 55-63: variable, value and polarity of the three
      literals of clause `i`. */
  method LoadClause(clauses: seq<int>, out: array<int>, i: int, ghost c: seq<int>)
    returns (index: array<int>, value: array<int>, sign: array<int>)
    requires TripleAt(clauses, i, c) && ClauseInRange(c, out.Length - 1)
    ensures fresh(index) && fresh(value) && fresh(sign)
    ensures index.Length == 3 && value.Length == 3 && sign.Length == 3
    ensures forall j :: 0 <= j < 3 ==>
      index[j] == Var(c[j]) && value[j] == out[Var(c[j])] && sign[j] == (if c[j] >= 0 then 1 else 0)
  {
    index := new int[3];
    value := new int[3];
    sign := new int[3];
    var j := 0;
    while j < 3
      invariant 0 <= j <= 3
      invariant forall jj :: 0 <= jj < j ==>
        index[jj] == Var(c[jj]) && value[jj] == out[Var(c[jj])] && sign[jj] == (if c[jj] >= 0 then 1 else 0)
    {
      assert clauses[3 * i + j] == c[j];
      index[j] := clauses[3 * i + j];
      sign[j] := if index[j] >= 0 then 1 else 0;
      if Not(sign[j]) == 1 {
        index[j] := -index[j];
      }
      value[j] := out[index[j]];
      j := j + 1;
    }
  }

  /** Clause `c` is the triple of the flat vector at clause index `i`. */
  predicate TripleAt(clauses: seq<int>, i: int, c: seq<int>) {
    0 <= i && 3 * i + 3 <= |clauses| && |c| == 3 &&
    c[0] == clauses[3 * i] && c[1] == clauses[3 * i + 1] && c[2] == clauses[3 * i + 2]
  }

  /** The kernel's bit test of lines 37-38: `value ^ !sign` is 0 exactly when
      the assigned literal is false. */
  lemma FalseBit(a: seq<int>, lit: int, value: int, sign: int)
    requires 1 <= Var(lit) < |a| && value == a[Var(lit)] && 0 <= value <= 1
    requires sign == if lit >= 0 then 1 else 0
    ensures Xor(value, Not(sign)) == 0 <==> IsFalse(a, lit)
  {
  }

  /** The body of the `for` loop of lines 13-48 for clause `i`: skip it when
      two of its literals are unassigned, otherwise force as `ForceFirst`
      does. */
  method ForceClause(clauses: seq<int>, out: array<int>, i: int, ghost a: seq<int>, ghost c: seq<int>)
    returns (changed: bool)
    requires TripleAt(clauses, i, c) && out[..] == a && ValidAssignment(a) && ClauseInRange(c, |a| - 1)
    modifies out
    ensures !changed ==> Forced3(a, c) == 0 && out[..] == a
    ensures changed ==> Forced3(a, c) != 0 && out[..] == Force(a, Forced3(a, c))
  {
    var index, value, sign := LoadClause(clauses, out, i, c);
    if (value[0] == -1 && value[1] == -1) || (value[1] == -1 && value[2] == -1) ||
       (value[2] == -1 && value[0] == -1) {
      assert TwoFree(a, c);
      return false;
    }
    changed := ForceFirst(out, index, value, sign, a, c);
  }

  /** Lines 33-44 on a clause with at most one unassigned literal: write the
      literal at the first position whose literal is unassigned while the
      other two are false. No later position can force as well. */
  method ForceFirst(out: array<int>, index: array<int>, value: array<int>, sign: array<int>,
                    ghost a: seq<int>, ghost c: seq<int>) returns (changed: bool)
    requires index.Length == 3 && value.Length == 3 && sign.Length == 3
    requires out != index && out != value && out != sign
    requires |c| == 3 && out[..] == a && ValidAssignment(a) && ClauseInRange(c, |a| - 1) && !TwoFree(a, c)
    requires forall k :: 0 <= k < 3 ==>
      index[k] == Var(c[k]) && value[k] == a[Var(c[k])] && sign[k] == (if c[k] >= 0 then 1 else 0)
    modifies out
    ensures !changed ==> Forced3(a, c) == 0 && out[..] == a
    ensures changed ==> Forced3(a, c) != 0 && out[..] == Force(a, Forced3(a, c))
  {
    changed := false;
    var j := 0;
    ghost var at := -1;
    while j < 3
      invariant 0 <= j <= 3 && -1 <= at < j && (changed <==> at >= 0)
      invariant forall jj :: 0 <= jj < j && jj != at ==> !ForcesAt(a, c, jj)
      invariant at >= 0 ==> ForcesAt(a, c, at) && forall jj :: 0 <= jj < 3 && jj != at ==> !ForcesAt(a, c, jj)
      invariant out[..] == if at >= 0 then Force(a, c[at]) else a
    {
      if value[j] == -1 {
        var j1, j2 := (j + 1) % 3, (j + 2) % 3;
        assert j1 == Next(j) && j2 == Next(Next(j));
        ForceTest(a, c, j, value[..], sign[..]);
        var other1 := Xor(value[j1], Not(sign[j1]));
        var other2 := Xor(value[j2], Not(sign[j2]));
        if Not(other1) == 1 && Not(other2) == 1 {
          ForcesOnlyAt(a, c, j);
          out[index[j]] := Xor(1, Not(sign[j]));
          at := j;
          changed := true;
        }
      }
      j := j + 1;
    }
    if changed {
      assert Forced3(a, c) == c[at];
    }
  }

  /** The bit test of lines 36-41 at an unassigned position `j` of a clause
      with at most one unassigned literal: the other two literals are
      assigned, and both test false exactly when position `j` forces. */
  lemma ForceTest(a: seq<int>, c: seq<int>, j: int, value: seq<int>, sign: seq<int>)
    requires |c| == 3 && ClauseInRange(c, |a| - 1) && ValidAssignment(a) && 0 <= j < 3 && !TwoFree(a, c)
    requires |value| == 3 && |sign| == 3
    requires forall k :: 0 <= k < 3 ==> value[k] == a[Var(c[k])] && sign[k] == if c[k] >= 0 then 1 else 0
    requires value[j] == -1
    ensures 0 <= value[Next(j)] <= 1 && 0 <= value[Next(Next(j))] <= 1
    ensures (Not(Xor(value[Next(j)], Not(sign[Next(j)]))) == 1 &&
             Not(Xor(value[Next(Next(j))], Not(sign[Next(Next(j))]))) == 1) <==> ForcesAt(a, c, j)
  {
    var j1, j2 := Next(j), Next(Next(j));
    FalseBit(a, c[j1], value[j1], sign[j1]);
    FalseBit(a, c[j2], value[j2], sign[j2]);
  }

  /** At most one position of a clause forces: the forcing position's
      literal is unassigned, so it is not false for any other position. */
  lemma ForcesOnlyAt(a: seq<int>, c: seq<int>, j: int)
    requires |c| == 3 && ClauseInRange(c, |a| - 1) && 0 <= j < 3 && ForcesAt(a, c, j)
    ensures forall k :: 0 <= k < 3 && k != j ==> !ForcesAt(a, c, k)
  {
    forall k | 0 <= k < 3 && k != j ensures !ForcesAt(a, c, k) {
      assert IsFalse(a, c[k]) by {
        assert k == Next(j) || k == Next(Next(j));
      }
    }
  }

  /** One sweep of the `for` loop of lines 13-48 over the clauses, leaving
      it at the first clause that forces a literal: the sweep forces the
      literal `getImpliedVar` would return, or finds none. */
  method Sweep(clauses: seq<int>, out: array<int>, clauseCnt: int, ghost cur: seq<int>) returns (changed: bool)
    requires 0 <= clauseCnt && 3 * clauseCnt <= |clauses|
    requires out[..] == cur && ValidAssignment(cur) && InRange(Group3(clauses, clauseCnt), |cur| - 1)
    modifies out
    ensures !changed ==> FirstImplied(Group3(clauses, clauseCnt), cur) == 0 && out[..] == cur
    ensures changed ==> FirstImplied(Group3(clauses, clauseCnt), cur) != 0 &&
                        out[..] == Force(cur, FirstImplied(Group3(clauses, clauseCnt), cur))
  {
    ghost var g := Group3(clauses, clauseCnt);
    changed := false;
    var i := 0;
    while i < clauseCnt
      invariant 0 <= i <= clauseCnt && !changed && out[..] == cur
      invariant forall k :: 0 <= k < i ==> Forced3(cur, g[k]) == 0
    {
      assert ClauseInRange(g[i], |cur| - 1) && TripleAt(clauses, i, g[i]);
      changed := ForceClause(clauses, out, i, cur, g[i]);
      if changed {
        FirstForced(g, cur, i);
        return;
      }
      i := i + 1;
    }
    FirstForced(g, cur, clauseCnt);
  }

  /** `kernal`: propagate until a sweep forces nothing, then scan for a
      clause whose three literals are all assigned and false. Afterwards
      `out[1..]` is the propagated assignment of the general engine and
      `out[0]` is 1 exactly when that assignment has a conflict. The ghost
      `lits` lists the literals the sweeps force, in order: the same
      literals, in the same order, that `resolveImplications` forces. */
  method Kernal(clauses: seq<int>, out: array<int>, varCnt: int, clauseCnt: int) returns (ghost lits: seq<int>)
    requires 0 <= clauseCnt && 3 * clauseCnt <= |clauses|
    requires out.Length == varCnt + 1 && ValidAssignment(out[..])
    requires InRange(Group3(clauses, clauseCnt), varCnt)
    modifies out
    ensures out[1..] == Propagate(Group3(clauses, clauseCnt), old(out[..])).assignment[1..]
    ensures out[0] == if HasConflict(Group3(clauses, clauseCnt), Propagate(Group3(clauses, clauseCnt), old(out[..])).assignment)
                      then 1 else 0
    ensures lits == Propagate(Group3(clauses, clauseCnt), old(out[..])).forced
  {
    ghost var g := Group3(clauses, clauseCnt);
    ghost var a0 := out[..];
    ghost var cur := a0;
    lits := [];
    var changed := true;
    while changed
      invariant cur == out[..] && OnTrail(g, a0, cur, lits)
      invariant !changed ==> FirstImplied(g, cur) == 0
      decreases if changed then NumFree(cur) + 1 else 0
    {
      changed := Sweep(clauses, out, clauseCnt, cur);
      if changed {
        PropagateTrailStep(g, a0, cur, lits);
        lits := lits + [FirstImplied(g, cur)];
        cur := Force(cur, FirstImplied(g, cur));
      }
    }
    PropagateTrailEnd(g, a0, cur, lits);
    ScanConflicts(clauses, out, clauseCnt, cur);
  }

  /** The body of the loop of lines 53-79 for clause `i`: true exactly when
      its three literals are all assigned and all false. */
  method ClauseFalsified(clauses: seq<int>, out: array<int>, i: int, ghost c: seq<int>) returns (b: bool)
    requires TripleAt(clauses, i, c) && ValidAssignment(out[..]) && ClauseInRange(c, out.Length - 1)
    ensures b == Falsified(out[..], c)
  {
    ghost var a := out[..];
    var index, value, sign := LoadClause(clauses, out, i, c);
    if value[0] == -1 || value[1] == -1 || value[2] == -1 {
      return false;
    }
    var j := 0;
    while j < 3
      modifies value
      invariant 0 <= j <= 3
      invariant forall jj :: 0 <= jj < j ==> value[jj] == if IsTrue(a, c[jj]) then 1 else 0
      invariant forall jj :: j <= jj < 3 ==> value[jj] == a[Var(c[jj])] && value[jj] != -1
    {
      if Not(sign[j]) == 1 {
        value[j] := Not(value[j]);
      }
      j := j + 1;
    }
    b := !(value[0] != 0 || value[1] != 0 || value[2] != 0);
    assert Falsified(a, c) <==> !IsTrue(a, c[0]) && !IsTrue(a, c[1]) && !IsTrue(a, c[2]);
  }

  /** Lines 52-80: `out[0]` becomes 1 if some clause has all three literals
      assigned and false, 0 otherwise; no other entry changes. */
  method ScanConflicts(clauses: seq<int>, out: array<int>, clauseCnt: int, ghost cur: seq<int>)
    requires 0 <= clauseCnt && 3 * clauseCnt <= |clauses|
    requires out[..] == cur && ValidAssignment(cur) && InRange(Group3(clauses, clauseCnt), |cur| - 1)
    modifies out
    ensures out[1..] == cur[1..]
    ensures out[0] == if HasConflict(Group3(clauses, clauseCnt), cur) then 1 else 0
  {
    ghost var g := Group3(clauses, clauseCnt);
    var i := 0;
    while i < clauseCnt
      invariant 0 <= i <= clauseCnt && out[..] == cur
      invariant forall k :: 0 <= k < i ==> !Falsified(cur, g[k])
    {
      assert ClauseInRange(g[i], |cur| - 1) && TripleAt(clauses, i, g[i]);
      var b := ClauseFalsified(clauses, out, i, g[i]);
      if b {
        out[0] := 1;
        assert out[1..] == cur[1..];
        return;
      }
      i := i + 1;
    }
    out[0] := 0;
    assert out[1..] == cur[1..];
  }
}

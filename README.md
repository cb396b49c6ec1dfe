# fsat: a verified model of the DPLL-style SAT core

fsat is a small SAT solver for DIMACS CNF files. It has two engines.

- The general solver, `src/naive.cpp`, has a `SATInstance`. The instance holds:
  - the variable count `var_cnt` and the clause count `clause_cnt`;
  - the assignment vector `vars`, where 1..var_cnt hold -1 (unassigned), 0 or 1;
  - one vector of literals per clause.
- The general solver reads the file and then searches depth-first:
  - unit propagation (`resolveImplications` with `getImpliedVar`) first;
  - then the conflict test (`conflictExists`);
  - then a branch on the lowest unassigned variable (`selectVar`), false first, then true;
  - a failed branch undoes the implied assignments.
- The accelerator engine, `src/kernal.cpp`, has one function, `kernal`.
  - It works on a flat vector of 3-literal clauses.
  - It propagates until a sweep forces nothing.
  - It writes a conflict flag into slot 0 of the assignment.
- `src/kernal_test.cpp` is the host around the kernel. Its search has the same shape as the general solver's, with two differences:
  - it undoes a failed call by copying back a snapshot of `vars`;
  - it does not unassign the implied variables one by one.

The model has seven modules:

- `Cnf`: literals, assignments, satisfaction, extension and refutation.
- `UnitPropagation`: the unit test, the scan order of `getImpliedVar`, propagation as a function and the conflict test. Each comes with lemmas proving it sound with respect to satisfaction.
- `Backtracking`: the depth-first search as a function `Search`. It is proved:
  - sound (a model it returns is a total assignment that satisfies every clause);
  - complete (it fails only when nothing satisfies the clauses);
  - deciding satisfiability from the root assignment.

  This module also has the `printSol` line.
- `Dimacs`: the reader over a token list. It is proved against a parse function, together with a round trip from a formula's token form back to the formula.
- `Naive`: the class `SatInstance` of `src/naive.cpp`. Its fields are updated in place. Every method is proved equal to the specification functions.
- `Kernel`: the method `Kernal`, which updates `out` in place. It is proved to leave exactly the general engine's propagated assignment in `out[1..]`, and its conflict test in `out[0]`.
- `KernelTest`: the class `SatInstance` of `src/kernal_test.cpp`. It is proved to make the same search as `Search`, on the flat vector grouped by three.

For a formula whose clauses all have three literals, the two engines provably compute the same function of the formula. `Kernel.GroupFlatten` shows that the grouped flat vector is then the formula read, and `KernelTest.EnginesAgree` states that the two searches agree. The kernel also forces the same literals, in the same order, as `resolveImplications` (the ghost result of `Kernel.Kernal`). For other formulas, the kernel host solves the grouping of its flat vector into triples, not the formula read.

## Model

| member | source | states |
|---|---|---|
| Cnf.NumFreeAssign | src/naive.cpp:80-86 | assigning 0 or 1 to an unassigned variable lowers the number of unassigned variables by exactly one, so the recursion of `backtrack` terminates |
| UnitPropagation.AnyTrueIff | src/naive.cpp:116-122 | the `clause_val` accumulator is true exactly when some literal of the clause is true |
| UnitPropagation.UnitIff | src/naive.cpp:117-125 | both directions: the test `unassigned_cnt == 1 && !clause_val` holds exactly when one position holds the only unassigned literal and every other literal is false, and then `unassigned_i` is that literal |
| UnitPropagation.NoFreeNoTrueIsFalsified | src/naive.cpp:131-138 | a clause with no unassigned and no true literal has every literal false |
| UnitPropagation.FreeAllAssigned | src/naive.cpp:133-138 | a clause whose literals are all false has no unassigned literal |
| UnitPropagation.FirstImplied | src/naive.cpp:113-128 | the returned literal is 0 or names a variable that is currently unassigned |
| UnitPropagation.FirstImpliedIff | src/naive.cpp:113-128 | `getImpliedVar` returns 0 exactly when no clause is unit; otherwise it returns the literal of the first unit clause in scan order |
| UnitPropagation.Force | src/naive.cpp:107 | forcing a literal makes it true and changes no other variable |
| UnitPropagation.Propagate | src/naive.cpp:104-111 | propagation keeps slot 0 and every assigned value, reaches a state with no unit clause, and forces exactly as many literals as it removes unassigned variables |
| UnitPropagation.PropagateStep | src/naive.cpp:106-109 | without a unit clause propagation changes nothing; with one it forces `getImpliedVar`'s literal first and continues from there |
| UnitPropagation.PropagateTrailStep | src/naive.cpp:106-109 | one iteration of the loop keeps the assignment on the way to the propagated one, appends the forced literal to the trail, and lowers the number of unassigned variables |
| UnitPropagation.PropagateTrailEnd | src/naive.cpp:106 | when `getImpliedVar` returns 0 the loop has reached the propagated assignment and `implied` lists every forced variable |
| UnitPropagation.VarsAppend | src/naive.cpp:108 | pushing `mod(impliedVar)` appends that variable to the list of forced variables |
| UnitPropagation.PropagateForcedWereFree | src/naive.cpp:104-111 | every variable pushed onto `implied` was unassigned before propagation and is assigned after it |
| UnitPropagation.PropagateForcedDistinct | src/naive.cpp:104-111 | no variable occurs twice in `implied` |
| UnitPropagation.PropagateFrame | src/naive.cpp:104-111 | propagation changes no entry of `vars` outside `implied`, slot 0 included |
| UnitPropagation.PropagateUndo | src/naive.cpp:74 | setting every variable of `implied` back to -1 restores the assignment from before propagation exactly |
| UnitPropagation.UnitForcedInModel | src/naive.cpp:123-125 | any satisfying total extension of the assignment agrees with the literal forced by a unit clause |
| UnitPropagation.PropagateSound | src/naive.cpp:104-111 | every total assignment that keeps the current values and satisfies the clauses also keeps every propagated value |
| UnitPropagation.ConflictRefutes | src/naive.cpp:130-141 | when `conflictExists` is true, no total assignment keeping the current values satisfies the clauses |
| UnitPropagation.TotalNoConflictSatisfies | src/naive.cpp:78 | a total assignment without a conflict satisfies every clause, so returning `Solved` when `selectVar` finds no variable is right |
| Backtracking.LowestFree | src/naive.cpp:98-102 | the result is var_cnt + 1 or an unassigned variable, and every variable below it is assigned |
| Backtracking.SearchStep | src/naive.cpp:69-95 | one level of `backtrack`: a conflict fails; a total conflict-free assignment is the model; otherwise the false branch, or failing that the true branch, decides, and each branch has fewer unassigned variables |
| Backtracking.SearchModelKeeps | src/naive.cpp:69-95 | a model found has the length and slot 0 of the starting assignment and keeps its assigned values |
| Backtracking.SearchModelSatisfies | src/naive.cpp:69-95 | a model found is total and satisfies every clause |
| Backtracking.SearchSound | src/naive.cpp:69-95 | a model found is a model of the clauses extending the starting assignment |
| Backtracking.BranchRefutes | src/naive.cpp:80-93 | when both `vars[var] = 0` and `vars[var] = 1` are refuted, so is the assignment with `var` unassigned |
| Backtracking.PropagateRefutes | src/naive.cpp:70 | refuting the propagated assignment refutes the one before propagation |
| Backtracking.SearchComplete | src/naive.cpp:69-95 | when the search fails, no total assignment keeping the starting values satisfies the clauses |
| Backtracking.SearchDecides | src/naive.cpp:69-95 | both directions: the search fails exactly when the starting assignment is refuted |
| Backtracking.Cleared | src/naive.cpp:65 | `solve`'s root assignment keeps slot 0 and makes every variable -1 |
| Backtracking.RootSearchDecides | src/naive.cpp:64-67 | from the root assignment the search fails exactly when the formula has no satisfying assignment over var_cnt variables |
| Backtracking.SolutionLine | src/naive.cpp:146-147 | the printed line lists one literal per variable, in order 1..var_cnt |
| Backtracking.SolutionLineModel | src/naive.cpp:143-149 | on a total assignment every printed literal is true, and on a model every clause shares a literal with the printed line |
| Dimacs.SkipComments | src/naive.cpp:43-47 | the comment-skipping loop stops at the first token that is not a comment line |
| Dimacs.ParseClause | src/naive.cpp:60-61 | a clause read has no 0 in it and ends after its terminating 0 |
| Dimacs.ParseClauses | src/naive.cpp:59-61 | exactly `clause_cnt` clauses are read, none containing 0 |
| Dimacs.Parse | src/naive.cpp:35-62 | a successful read gives `clause_cnt` clauses, none containing 0 |
| Dimacs.ReadTokens | src/naive.cpp:35-62 | the reading loops compute exactly the parse function, error cases included |
| Dimacs.ParseClauseAt | src/naive.cpp:60-61 | the tokens of a clause and its 0 read back to that clause |
| Dimacs.ParseClausesAt | src/naive.cpp:59-61 | the tokens of a list of clauses read back to the list |
| Dimacs.SkipLeadingComments | src/naive.cpp:43-47 | any number of comment lines before the header is skipped |
| Dimacs.ParseSerialize | src/naive.cpp:35-62 | round trip: reading the DIMACS token form of a well-formed formula, after any comment lines, gives the formula back |
| Dimacs.ParseRequiresCnf | src/naive.cpp:48-52 | reading stops with the offending token whenever the word after the problem-line marker is not `cnf` |
| Naive.SatInstance.Read | src/naive.cpp:35-62 | the instance holds what the parse function returns, with `var_cnt + 1` zero entries in `vars`; on a rejected input nothing changes |
| Naive.SatInstance.GetImpliedVar | src/naive.cpp:113-128 | returns the first implied literal, the specification function's value |
| Naive.SatInstance.ConflictExists | src/naive.cpp:130-141 | returns true exactly when some clause has all its literals assigned and false |
| Naive.SatInstance.SelectVar | src/naive.cpp:98-102 | returns the lowest unassigned variable, or var_cnt + 1 when all are assigned |
| Naive.SatInstance.SetVar | src/naive.cpp:80 | one entry of `vars` changes and the instance stays valid |
| Naive.SatInstance.ResolveImplications | src/naive.cpp:104-111 | `vars` becomes the propagated assignment and `implied` lists the forced variables in order |
| Naive.SatInstance.Unassign | src/naive.cpp:74 | every listed variable becomes -1 and nothing else changes |
| Naive.SatInstance.Backtrack | src/naive.cpp:69-95 | reports `Solved` exactly when the search function finds a model and leaves that model in `vars`; on failure `vars` is back to its entry value |
| Naive.SatInstance.Branch | src/naive.cpp:79-94 | tries `var` false and then true; succeeds exactly when one of the two searches does, with the first successful model; on failure `var` is -1 again |
| Naive.SatInstance.Solve | src/naive.cpp:64-67 | reports `Solved` exactly when the clauses are satisfiable, and then `vars` is a total satisfying assignment; otherwise `vars` is the root assignment |
| Kernel.Group3 | src/kernal.cpp:18 | clause i of the kernel is the literals at positions 3i, 3i+1 and 3i+2 of the flat vector |
| Kernel.GroupFlatten | src/kernal_test.cpp:63-64 | for clauses of three literals, regrouping the flat vector built by `read` gives the clauses back |
| Kernel.ForcesAtIsUnitAt | src/kernal.cpp:35-40 | both directions: position j passes the kernel's test exactly when it holds the only unassigned literal and the others are false |
| Kernel.Forced3IsUnit | src/kernal.cpp:25-44 | the kernel forces a literal exactly when the clause is unit in `getImpliedVar`'s sense, and the same literal |
| Kernel.FirstForced | src/kernal.cpp:13-48 | when the clauses before i force nothing, the literal clause i forces is the first implied literal; a sweep forcing nothing means no clause is unit |
| Kernel.LoadClause | src/kernal.cpp:16-23 | loads variable, current value and polarity of the three literals of clause i |
| Kernel.FalseBit | src/kernal.cpp:36-37 | `v ^ !sign` is 0 exactly when the assigned literal is false |
| Kernel.ForceTest | src/kernal.cpp:35-40 | at an unassigned position of a clause not skipped, both other values are assigned, and the test `!other1 && !other2` holds exactly when the position forces |
| Kernel.ForcesOnlyAt | src/kernal.cpp:33-44 | at most one position of a clause forces, so the loop writes at most one entry |
| Kernel.ForceClause | src/kernal.cpp:14-47 | one clause either forces nothing and changes nothing, or writes the kernel's forced literal |
| Kernel.ForceFirst | src/kernal.cpp:33-44 | on a clause not skipped, `out` becomes the assignment forcing the clause's forced literal, or stays the same when there is none |
| Kernel.Sweep | src/kernal.cpp:12-48 | one sweep forces exactly `getImpliedVar`'s literal, or reports that no clause is unit |
| Kernel.Kernal | src/kernal.cpp:6-81 | `out[1..]` becomes the general engine's propagated assignment, `out[0]` is 1 exactly when that assignment has a conflict, and the literals forced are the general engine's, in the same order |
| Kernel.ClauseFalsified | src/kernal.cpp:54-75 | true exactly when all three literals are assigned and false |
| Kernel.ScanConflicts | src/kernal.cpp:51-80 | `out[0]` becomes 1 exactly when some clause is falsified, 0 otherwise, and no other entry changes |
| KernelTest.EnginesAgree | src/kernal_test.cpp:63-64 | for clauses of three literals, the search over the regrouped flat vector is the general solver's search over the clauses read |
| KernelTest.SatInstance.Read | src/kernal_test.cpp:38-65 | the counts are those parsed and the flat vector is the parsed clauses concatenated, with `var_cnt + 1` zero entries in `vars`; on a rejected input nothing changes |
| KernelTest.SatInstance.SelectVar | src/kernal_test.cpp:104-108 | returns the lowest unassigned variable, or var_cnt + 1 when all are assigned |
| KernelTest.SatInstance.SetVar | src/kernal_test.cpp:85 | one entry of `vars` changes and the instance stays valid |
| KernelTest.SatInstance.Restore | src/kernal_test.cpp:78 | `vars = curr` copies the snapshot back |
| KernelTest.SatInstance.Backtrack | src/kernal_test.cpp:72-101 | reports `Solved` exactly when the search function on the grouped clauses finds a model and leaves that model in `vars`; on failure `vars` is back to its entry value |
| KernelTest.SatInstance.Branch | src/kernal_test.cpp:83-100 | tries `var` false and then true; succeeds exactly when one of the two searches does, with the first successful model; on failure `var` is left true, to be undone by the snapshot |
| KernelTest.SatInstance.Solve | src/kernal_test.cpp:67-70 | reports `Solved` exactly when the grouped clauses are satisfiable, and then `vars` is a total satisfying assignment |

## Left out

- File and console I/O are not modelled.
  - Opening the file and `main`'s argument check are left out.
  - The `s SATISFIABLE` / `UNSATISFIABLE` text is left out.
  - `printSol` is modelled only as the list of literals it prints (`Backtracking.SolutionLine`).
- `printClauses` is left out. It is a debugging printer with no effect on the state.
- `src/host.cpp`, `src/host_with_kernal.cpp`, `src/og_host.cpp` and `src/builder.cpp` are not part of this model. The first three are the accelerator's runtime hosts. `src/builder.cpp` is a code generator: it writes per-variable C functions into a kernel source file.
- The reader works on a token list, not a character stream.
  - A comment line is one `Comment` token.
  - The character read before `cnf` (normally `p`) is one token. It is consumed without a check, as in the source.
- Dimacs.Parse: a stream failure on a well-formed prefix is a modelled outcome, not the source's behaviour.
  - The source does not handle a file that ends early or has a non-numeric count or literal. It goes on with whatever the failed extraction leaves.
  - The model returns `Err(Truncated)` or `Err(BadHeader)` instead.
- Dimacs.Parse: every negative count returns `Err(BadHeader)`, but the source treats negative counts in three different ways.
  - src/naive.cpp solves `var_cnt = -1` as zero variables: `vars.resize(0)` is well defined, and `selectVar` returns 0 = var_cnt + 1. The model rejects this input.
  - `var_cnt <= -2` aborts in `vars.resize(var_cnt + 1)`.
  - A negative `clause_cnt` aborts in src/naive.cpp at `clauses.resize(clause_cnt)`. src/kernal_test.cpp's `read` accepts it and skips its clause loop, and the kernel's `unsigned` loop bound then turns the count into a huge one.
- Naive.SatInstance.Read, KernelTest.SatInstance.Read: on `Err(NotCnf(_))` the fields are left unchanged. Both sources call `exit(1)` instead.
- Naive.SatInstance.Valid: the source never checks that literals name variables 1..var_cnt. An out-of-range literal indexes `vars` out of bounds. The model therefore requires that range for every solver method, and `Read` establishes `Valid()` only when it holds.
- KernelTest.SatInstance.Valid: it requires at least `3 * clause_cnt` literals in the flat vector. With fewer, `kernal` reads past the end of `clauses`. A file whose clauses do not all have three literals is solved as its grouping `Group3`, not as the formula read.
- Kernel.Kernal: `clause_cnt` must not be negative. The source's `unsigned` loop counter would turn a negative count into a huge bound.
- Integer width, throughout the model: counts, literals and indices are unbounded integers, not 32-bit `int`.
  - The model does not capture the overflow of `var_cnt + 1` at INT_MAX (src/naive.cpp:55, 99-101).
  - Nor does it capture `mod(INT_MIN)`, whose negation overflows (src/naive.cpp:9).
- The `#pragma HLS UNROLL` directives only guide hardware synthesis and have no effect on the result.
- Kernel.LoadClause serves both loading loops of `kernal`. The conflict scan of lines 55-63 stores the signed literal in `var[j]` and reads `out[-var[j]]`. `LoadClause` stores the variable. The loaded value and sign are the same, and `var[j]` is not used afterwards.
- Recursion depth, running time and the accelerator's memory interface (`clauses` and `out` as device buffers) are not modelled.

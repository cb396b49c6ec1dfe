/** The DIMACS CNF reader shared by src/naive.cpp and src/kernal_test.cpp
    (`SATInstance::read`), over a token list instead of a character stream:
    comment lines, then a problem-line marker (consumed unchecked, as the
    source does with the character it reads), the word `cnf`, the variable
    and clause counts, and `clause_cnt` zero-terminated lists of literals. */
module Dimacs {

  /** A lexed token: a whole comment line, a word, or an integer. */
  datatype Token = Comment | Word(text: string) | Number(value: int)

  /** Why reading stopped. `NotCnf` is the source's `exit(1)`; the other two
      stand for streams the source does not handle (see README). */
  datatype ReadError = NotCnf(given: Token) | BadHeader | Truncated

  datatype Result<T> = Ok(value: T) | Err(error: ReadError)

  /** The parsed instance: `var_cnt`, `clause_cnt` and the clauses. */
  datatype Formula = Formula(varCnt: nat, clauseCnt: nat, clauses: seq<seq<int>>)

  /** A clause as read: the terminating 0 is never part of it. */
  predicate NoZero(c: seq<int>) {
    forall j :: 0 <= j < |c| ==> c[j] != 0
  }

  /** `clause_cnt` clauses, none containing 0. */
  predicate WellFormed(f: Formula) {
    |f.clauses| == f.clauseCnt && forall k :: 0 <= k < |f.clauses| ==> NoZero(f.clauses[k])
  }

  /** Position of the first token at or after `pos` that is not a comment. */
  function SkipComments(ts: seq<Token>, pos: nat): (r: nat)
    requires pos <= |ts|
    ensures pos <= r <= |ts|
    ensures forall i :: pos <= i < r ==> ts[i] == Comment
    ensures r < |ts| ==> ts[r] != Comment
    decreases |ts| - pos
  {
    if pos < |ts| && ts[pos] == Comment then SkipComments(ts, pos + 1) else pos
  }

  /** One clause starting at `pos`: literals up to the next 0, and the
      position after that 0. */
  function ParseClause(ts: seq<Token>, pos: nat): (r: Result<(seq<int>, nat)>)
    requires pos <= |ts|
    ensures r.Ok? ==> NoZero(r.value.0) && pos < r.value.1 <= |ts|
    decreases |ts| - pos
  {
    if pos == |ts| || !ts[pos].Number? then Err(Truncated)
    else if ts[pos].value == 0 then Ok(([], pos + 1))
    else
      match ParseClause(ts, pos + 1)
      case Ok((c, next)) => Ok(([ts[pos].value] + c, next))
      case Err(e) => Err(e)
  }

  /** `count` clauses starting at `pos`. */
  function ParseClauses(ts: seq<Token>, pos: nat, count: nat): (r: Result<(seq<seq<int>>, nat)>)
    requires pos <= |ts|
    ensures r.Ok? ==> |r.value.0| == count && pos <= r.value.1 <= |ts|
    ensures r.Ok? ==> forall k :: 0 <= k < count ==> NoZero(r.value.0[k])
    decreases count
  {
    if count == 0 then Ok(([], pos))
    else
      match ParseClause(ts, pos)
      case Err(e) => Err(e)
      case Ok((c, next)) =>
        match ParseClauses(ts, next, count - 1)
        case Err(e) => Err(e)
        case Ok((cs, last)) => Ok(([c] + cs, last))
  }

  /** The whole reader. */
  function Parse(ts: seq<Token>): (r: Result<Formula>)
    ensures r.Ok? ==> WellFormed(r.value)
  {
    var h := SkipComments(ts, 0);
    if h + 1 >= |ts| then Err(Truncated)
    else if ts[h + 1] != Word("cnf") then Err(NotCnf(ts[h + 1]))
    else if h + 3 >= |ts| || !ts[h + 2].Number? || !ts[h + 3].Number? then Err(BadHeader)
    else if ts[h + 2].value < 0 || ts[h + 3].value < 0 then Err(BadHeader)
    else
      var n, m := ts[h + 2].value, ts[h + 3].value;
      match ParseClauses(ts, h + 4, m)
      case Err(e) => Err(e)
      case Ok((cs, _)) => Ok(Formula(n, m, cs))
  }

  /** Prefix `lits` to a parsed clause (what one `push_back` adds). */
  function Prefixed(lits: seq<int>, r: Result<(seq<int>, nat)>): Result<(seq<int>, nat)>
  {
    match r
    case Ok((c, next)) => Ok((lits + c, next))
    case Err(e) => Err(e)
  }

  /** Prefix `cs` to parsed clauses. */
  function PrefixedAll(cs: seq<seq<int>>, r: Result<(seq<seq<int>>, nat)>): Result<(seq<seq<int>>, nat)>
  {
    match r
    case Ok((rest, next)) => Ok((cs + rest, next))
    case Err(e) => Err(e)
  }

  lemma PrefixedStep(lits: seq<int>, lit: int, r: Result<(seq<int>, nat)>)
    ensures Prefixed(lits, Prefixed([lit], r)) == Prefixed(lits + [lit], r)
    ensures Prefixed([], r) == r
  {
    if r.Ok? {
      assert lits + ([lit] + r.value.0) == (lits + [lit]) + r.value.0;
      assert [] + r.value.0 == r.value.0;
    }
  }

  lemma PrefixedAllStep(cs: seq<seq<int>>, c: seq<int>, r: Result<(seq<seq<int>>, nat)>)
    ensures PrefixedAll(cs, PrefixedAll([c], r)) == PrefixedAll(cs + [c], r)
    ensures PrefixedAll([], r) == r
  {
    if r.Ok? {
      assert cs + ([c] + r.value.0) == (cs + [c]) + r.value.0;
      assert [] + r.value.0 == r.value.0;
    }
  }

  /** The reading loops of `SATInstance::read`: skip comment lines, consume
      the marker, check `cnf`, read the counts, then for each clause push
      literals until a 0. */
  method ReadTokens(ts: seq<Token>) returns (r: Result<Formula>)
    ensures r == Parse(ts)
  {
    var pos := 0;
    while pos < |ts| && ts[pos] == Comment
      invariant 0 <= pos <= |ts|
      invariant SkipComments(ts, pos) == SkipComments(ts, 0)
    {
      pos := pos + 1;
    }
    if pos + 1 >= |ts| {
      return Err(Truncated);
    }
    pos := pos + 1;
    if ts[pos] != Word("cnf") {
      return Err(NotCnf(ts[pos]));
    }
    if pos + 2 >= |ts| || !ts[pos + 1].Number? || !ts[pos + 2].Number? {
      return Err(BadHeader);
    }
    var varCnt, clauseCnt := ts[pos + 1].value, ts[pos + 2].value;
    if varCnt < 0 || clauseCnt < 0 {
      return Err(BadHeader);
    }
    pos := pos + 3;
    ghost var start := pos;
    var clauses: seq<seq<int>> := [];
    var i := 0;
    PrefixedAllStep([], [], ParseClauses(ts, pos, clauseCnt));
    while i < clauseCnt
      invariant 0 <= i <= clauseCnt && |clauses| == i
      invariant start <= pos <= |ts|
      invariant ParseClauses(ts, start, clauseCnt) == PrefixedAll(clauses, ParseClauses(ts, pos, clauseCnt - i))
    {
      ghost var clauseStart := pos;
      var clause: seq<int> := [];
      if pos == |ts| || !ts[pos].Number? {
        return Err(Truncated);
      }
      var lit := ts[pos].value;
      pos := pos + 1;
      PrefixedStep([], lit, ParseClause(ts, clauseStart));
      while lit != 0
        invariant clauseStart < pos <= |ts| && ts[pos - 1] == Number(lit)
        invariant ParseClause(ts, clauseStart) == Prefixed(clause, ParseClause(ts, pos - 1))
        decreases |ts| - pos
      {
        assert ParseClause(ts, pos - 1) == Prefixed([lit], ParseClause(ts, pos));
        PrefixedStep(clause, lit, ParseClause(ts, pos));
        clause := clause + [lit];
        if pos == |ts| || !ts[pos].Number? {
          return Err(Truncated);
        }
        lit := ts[pos].value;
        pos := pos + 1;
      }
      assert ParseClause(ts, pos - 1) == Ok(([], pos as nat));
      assert ParseClause(ts, clauseStart) == Ok((clause, pos)) by {
        assert clause + [] == clause;
      }
      assert ParseClauses(ts, clauseStart, clauseCnt - i) ==
             PrefixedAll([clause], ParseClauses(ts, pos, clauseCnt - i - 1));
      PrefixedAllStep(clauses, clause, ParseClauses(ts, pos, clauseCnt - i - 1));
      clauses := clauses + [clause];
      i := i + 1;
    }
    assert clauses + [] == clauses;
    assert ParseClauses(ts, start, clauseCnt) == Ok((clauses, pos));
    return Ok(Formula(varCnt, clauseCnt, clauses));
  }

  /** Token form of a formula, as a DIMACS file would hold it. */
  function Serialize(f: Formula): seq<Token>
  {
    [Word("p"), Word("cnf"), Number(f.varCnt), Number(f.clauseCnt)] + ClauseTokens(f.clauses)
  }

  function LitTokens(c: seq<int>): seq<Token>
  {
    if c == [] then [] else [Number(c[0])] + LitTokens(c[1..])
  }

  function ClauseTokens(cs: seq<seq<int>>): seq<Token>
  {
    if cs == [] then [] else LitTokens(cs[0]) + [Number(0)] + ClauseTokens(cs[1..])
  }

  /** `ts` holds the tokens `w` from position `pos` on. */
  predicate At(ts: seq<Token>, pos: nat, w: seq<Token>) {
    pos + |w| <= |ts| && forall i :: 0 <= i < |w| ==> ts[pos + i] == w[i]
  }

  lemma AtSplit(ts: seq<Token>, pos: nat, u: seq<Token>, v: seq<Token>)
    requires At(ts, pos, u + v)
    ensures At(ts, pos, u) && At(ts, pos + |u|, v)
  {
    assert forall i :: 0 <= i < |u| ==> (u + v)[i] == u[i];
    assert forall i :: 0 <= i < |v| ==> (u + v)[|u| + i] == v[i];
  }

  /** The tokens of one clause and its terminating 0 parse back to the clause. */
  lemma {:induction false} ParseClauseAt(ts: seq<Token>, pos: nat, c: seq<int>)
    requires NoZero(c) && At(ts, pos, LitTokens(c) + [Number(0)])
    ensures ParseClause(ts, pos) == Ok((c, pos + |LitTokens(c)| + 1))
    decreases |c|
  {
    if c == [] {
      assert LitTokens(c) + [Number(0)] == [Number(0)];
      assert ts[pos + 0] == [Number(0)][0];
    } else {
      assert LitTokens(c) + [Number(0)] == [Number(c[0])] + (LitTokens(c[1..]) + [Number(0)]);
      AtSplit(ts, pos, [Number(c[0])], LitTokens(c[1..]) + [Number(0)]);
      assert ts[pos + 0] == [Number(c[0])][0];
      ParseClauseAt(ts, pos + 1, c[1..]);
      assert [c[0]] + c[1..] == c;
    }
  }

  /** The tokens of a list of clauses parse back to the list. */
  lemma {:induction false} ParseClausesAt(ts: seq<Token>, pos: nat, cs: seq<seq<int>>)
    requires forall k :: 0 <= k < |cs| ==> NoZero(cs[k])
    requires At(ts, pos, ClauseTokens(cs))
    ensures ParseClauses(ts, pos, |cs|) == Ok((cs, pos + |ClauseTokens(cs)|))
    decreases |cs|
  {
    if cs != [] {
      var first := LitTokens(cs[0]) + [Number(0)];
      assert ClauseTokens(cs) == first + ClauseTokens(cs[1..]);
      AtSplit(ts, pos, first, ClauseTokens(cs[1..]));
      ParseClauseAt(ts, pos, cs[0]);
      ParseClausesAt(ts, pos + |first|, cs[1..]);
      assert [cs[0]] + cs[1..] == cs;
    }
  }

  lemma {:induction false} SkipLeadingComments(comments: seq<Token>, rest: seq<Token>, pos: nat)
    requires forall i :: 0 <= i < |comments| ==> comments[i] == Comment
    requires rest != [] && rest[0] != Comment && pos <= |comments|
    ensures SkipComments(comments + rest, pos) == |comments|
    decreases |comments| - pos
  {
    if pos < |comments| {
      SkipLeadingComments(comments, rest, pos + 1);
    }
  }

  /** Round trip: reading the token form of a well-formed formula, after any
      number of comment lines, gives the formula back. */
  lemma ParseSerialize(comments: seq<Token>, f: Formula)
    requires forall i :: 0 <= i < |comments| ==> comments[i] == Comment
    requires WellFormed(f)
    ensures Parse(comments + Serialize(f)) == Ok(f)
  {
    var ts := comments + Serialize(f);
    var h := |comments|;
    SkipLeadingComments(comments, Serialize(f), 0);
    assert ts[h + 1] == Word("cnf") && ts[h + 2] == Number(f.varCnt) && ts[h + 3] == Number(f.clauseCnt);
    var header := comments + [Word("p"), Word("cnf"), Number(f.varCnt), Number(f.clauseCnt)];
    assert ts == header + ClauseTokens(f.clauses);
    AtSplit(ts, 0, header, ClauseTokens(f.clauses));
    ParseClausesAt(ts, h + 4, f.clauses);
  }

  /** The reader stops unless the token after the comment lines and the
      marker is exactly the word `cnf`. */
  lemma ParseRequiresCnf(comments: seq<Token>, marker: Token, given: Token, rest: seq<Token>)
    requires forall i :: 0 <= i < |comments| ==> comments[i] == Comment
    requires marker != Comment && given != Word("cnf")
    ensures Parse(comments + [marker, given] + rest) == Err(NotCnf(given))
  {
    var ts := comments + [marker, given] + rest;
    assert ts == comments + ([marker, given] + rest);
    SkipLeadingComments(comments, [marker, given] + rest, 0);
    assert ts[|comments| + 1] == given;
  }

  /** All clauses, concatenated with the terminating zeros dropped: the flat
      `clauses` vector of src/kernal_test.cpp. */
  function Flatten(cs: seq<seq<int>>): seq<int>
  {
    if cs == [] then [] else cs[0] + Flatten(cs[1..])
  }
}

/** The boolean filter as a boolean formula: over decided criteria it is the formula's truth value,
    and a decision taken before all criteria are decided is the value the formula will have. */
module FilterTruth {
  import opened Visibility
  import opened BooleanFilter

  // ----- truth

  predicate TrueTerm(t: Term, facts: seq<bool>)
    requires TermInRange(t, |facts|)
  {
    match t
    case Index(i) => facts[i - 1]
    case Paren(e) => TrueExpr(e, facts)
  }

  predicate TrueConj(c: Conj, facts: seq<bool>)
    requires ConjInRange(c, |facts|)
  {
    match c
    case Single(t) => TrueTerm(t, facts)
    case And(init, last) => TrueConj(init, facts) && TrueTerm(last, facts)
  }

  predicate TrueExpr(e: Expr, facts: seq<bool>)
    requires ExprInRange(e, |facts|)
  {
    match e
    case Alone(c) => TrueConj(c, facts)
    case Or(init, last) => TrueExpr(init, facts) || TrueConj(last, facts)
  }

  /** Every criterion is visible or hidden, as the facts say. */
  predicate Says(states: seq<VState>, facts: seq<bool>) {
    |states| == |facts| && forall i :: 0 <= i < |facts| ==> states[i] == if facts[i] then VISIBLE else HIDDEN
  }

  lemma {:induction false} TermIsTruth(t: Term, states: seq<VState>, facts: seq<bool>)
    requires Says(states, facts) && TermInRange(t, |facts|)
    ensures EvalTerm(t, states) == if TrueTerm(t, facts) then VISIBLE else HIDDEN
    decreases t
  {
    if t.Paren? {
      ExprIsTruth(t.e, states, facts);
    }
  }

  lemma {:induction false} ConjIsTruth(c: Conj, states: seq<VState>, facts: seq<bool>)
    requires Says(states, facts) && ConjInRange(c, |facts|)
    ensures EvalConj(c, states) == if TrueConj(c, facts) then VISIBLE else HIDDEN
    decreases c
  {
    match c
    case Single(t) => TermIsTruth(t, states, facts);
    case And(init, last) =>
      ConjIsTruth(init, states, facts);
      TermIsTruth(last, states, facts);
      CombineMeaning([EvalConj(init, states), EvalTerm(last, states)]);
  }

  lemma {:induction false} ExprIsTruth(e: Expr, states: seq<VState>, facts: seq<bool>)
    requires Says(states, facts) && ExprInRange(e, |facts|)
    ensures EvalExpr(e, states) == if TrueExpr(e, facts) then VISIBLE else HIDDEN
    decreases e
  {
    match e
    case Alone(c) => ConjIsTruth(c, states, facts);
    case Or(init, last) =>
      ExprIsTruth(init, states, facts);
      ConjIsTruth(last, states, facts);
      CombineMeaning([EvalExpr(init, states), EvalConj(last, states)]);
  }

  /** Over decided criteria a sentence evaluates to its truth value. */
  lemma FilterIsTruth(tokens: seq<Token>, e: Expr, states: seq<VState>, facts: seq<bool>)
    requires Says(states, facts) && Sentence(e, |facts|) && tokens == PrintExpr(e)
    ensures Filter(tokens, states) == Answer(if TrueExpr(e, facts) then VISIBLE else HIDDEN)
  {
    FilterMeaning(tokens, states);
    ExprIsTruth(e, states, facts);
  }

  /** What the undecided criteria turn out to be makes no difference to a decision. */
  lemma DecisionsAreTrue(tokens: seq<Token>, e: Expr, states: seq<VState>, settled: seq<VState>, facts: seq<bool>)
    requires Says(settled, facts) && AllRefine(states, settled) && Sentence(e, |facts|) && tokens == PrintExpr(e)
    ensures Filter(tokens, states) == Answer(VISIBLE) ==> TrueExpr(e, facts)
    ensures Filter(tokens, states) == Answer(HIDDEN) ==> !TrueExpr(e, facts)
  {
    FilterIsTruth(tokens, e, settled, facts);
    if Filter(tokens, states).Answer? {
      FilterSettles(tokens, states, settled);
    }
  }

  // ----- how filters are read

  function N(n: nat): Token {
    Number([n])
  }

  /** One criterion, two joined by AND, and two joined by OR: how they print and what they mean. */
  function One(n: nat): Conj {
    Single(Index(n))
  }

  function Both(m: nat, n: nat): Conj {
    And(One(m), Index(n))
  }

  function Either(c: Conj, d: Conj): Expr {
    Or(Alone(c), d)
  }

  lemma OneMeaning(n: nat, facts: seq<bool>)
    requires 1 <= n <= 9 && n <= |facts|
    ensures PrintConj(One(n)) == [N(n)] && ConjDepth(One(n)) == 0
    ensures ConjInRange(One(n), |facts|) && TrueConj(One(n), facts) == facts[n - 1]
  {
    assert Digits(n / 10) == [] && Digits(n) == [n];
    assert PrintTerm(Index(n)) == [Number(Digits(n))];
  }

  lemma BothMeaning(m: nat, n: nat, facts: seq<bool>)
    requires 1 <= m <= 9 && m <= |facts| && 1 <= n <= 9 && n <= |facts|
    ensures PrintConj(Both(m, n)) == [N(m), AndToken, N(n)] && ConjDepth(Both(m, n)) == 0
    ensures ConjInRange(Both(m, n), |facts|) && TrueConj(Both(m, n), facts) == (facts[m - 1] && facts[n - 1])
  {
    OneMeaning(m, facts);
    OneMeaning(n, facts);
    assert PrintTerm(Index(n)) == PrintConj(One(n));
  }

  lemma EitherMeaning(c: Conj, d: Conj, facts: seq<bool>)
    requires ConjInRange(c, |facts|) && ConjInRange(d, |facts|) && ConjDepth(c) == ConjDepth(d) == 0
    ensures PrintExpr(Either(c, d)) == PrintConj(c) + [OrToken] + PrintConj(d) && ExprDepth(Either(c, d)) == 0
    ensures ExprInRange(Either(c, d), |facts|)
    ensures TrueExpr(Either(c, d), facts) == (TrueConj(c, facts) || TrueConj(d, facts))
  {
    assert PrintExpr(Alone(c)) == PrintConj(c) && ExprDepth(Alone(c)) == ConjDepth(c);
    assert ExprInRange(Alone(c), |facts|) && TrueExpr(Alone(c), facts) == TrueConj(c, facts);
  }

  predicate InDigits(i: nat, facts: seq<bool>) {
    1 <= i <= 9 && i <= |facts|
  }

  /** AND binds closer than OR, on either side of it. */
  lemma AndBindsCloser(i: nat, j: nat, k: nat, states: seq<VState>, facts: seq<bool>)
    requires Says(states, facts) && InDigits(i, facts) && InDigits(j, facts) && InDigits(k, facts)
    ensures Filter([N(i), OrToken, N(j), AndToken, N(k)], states)
         == Answer(if facts[i - 1] || (facts[j - 1] && facts[k - 1]) then VISIBLE else HIDDEN)
    ensures Filter([N(i), AndToken, N(j), OrToken, N(k)], states)
         == Answer(if (facts[i - 1] && facts[j - 1]) || facts[k - 1] then VISIBLE else HIDDEN)
  {
    OneMeaning(i, facts);
    OneMeaning(k, facts);
    BothMeaning(i, j, facts);
    BothMeaning(j, k, facts);
    EitherMeaning(One(i), Both(j, k), facts);
    EitherMeaning(Both(i, j), One(k), facts);
    FilterIsTruth([N(i), OrToken, N(j), AndToken, N(k)], Either(One(i), Both(j, k)), states, facts);
    FilterIsTruth([N(i), AndToken, N(j), OrToken, N(k)], Either(Both(i, j), One(k)), states, facts);
  }

  function Grouped(e: Expr, n: nat): Expr {
    Alone(And(Single(Paren(e)), Index(n)))
  }

  lemma GroupedMeaning(e: Expr, n: nat, facts: seq<bool>)
    requires ExprInRange(e, |facts|) && ExprDepth(e) == 0 && 1 <= n <= 9 && n <= |facts|
    ensures PrintExpr(Grouped(e, n)) == [LParen] + PrintExpr(e) + [RParen] + [AndToken] + [N(n)]
    ensures ExprDepth(Grouped(e, n)) == 1 && ExprInRange(Grouped(e, n), |facts|)
    ensures TrueExpr(Grouped(e, n), facts) == (TrueExpr(e, facts) && facts[n - 1])
  {
    OneMeaning(n, facts);
    var group := Single(Paren(e));
    assert PrintTerm(Index(n)) == PrintConj(One(n));
    assert PrintConj(group) == PrintTerm(Paren(e)) == [LParen] + PrintExpr(e) + [RParen];
    assert ConjDepth(group) == TermDepth(Paren(e)) == 1;
    assert ConjInRange(group, |facts|) && TermInRange(Paren(e), |facts|);
    assert TrueConj(group, facts) == TrueTerm(Paren(e), facts) == TrueExpr(e, facts);
    assert ConjInRange(And(group, Index(n)), |facts|) && ConjDepth(And(group, Index(n))) == 1;
  }

  /** Parentheses group. */
  lemma ParenthesesGroup(i: nat, j: nat, k: nat, states: seq<VState>, facts: seq<bool>)
    requires Says(states, facts) && InDigits(i, facts) && InDigits(j, facts) && InDigits(k, facts)
    ensures Filter([LParen, N(i), OrToken, N(j), RParen, AndToken, N(k)], states)
         == Answer(if (facts[i - 1] || facts[j - 1]) && facts[k - 1] then VISIBLE else HIDDEN)
  {
    OneMeaning(i, facts);
    OneMeaning(j, facts);
    EitherMeaning(One(i), One(j), facts);
    GroupedMeaning(Either(One(i), One(j)), k, facts);
    FilterIsTruth([LParen, N(i), OrToken, N(j), RParen, AndToken, N(k)], Grouped(Either(One(i), One(j)), k), states,
                  facts);
  }
}

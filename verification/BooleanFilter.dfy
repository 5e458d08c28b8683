/** The boolean filter over numbered criteria: a recursive-descent evaluator with a moving
    offset, and the grammar it accepts.

      expression -> conj (OR conj)*      conj -> term (AND term)*
      term -> index | "(" expression ")"
 */
module BooleanFilter {
  import opened Visibility

  /** The longest token list and the deepest nesting the evaluator takes. */
  const MAX_TOKENS: nat := 150
  const MAX_DEPTH: nat := 25

  datatype Token = Number(digits: seq<nat>) | AndToken | OrToken | LParen | RParen

  // ----- the grammar

  datatype Term = Index(n: nat) | Paren(e: Expr)
  datatype Conj = Single(t: Term) | And(init: Conj, last: Term)
  datatype Expr = Alone(c: Conj) | Or(init: Expr, last: Conj)

  function Value(digits: seq<nat>): nat {
    if digits == [] then 0 else 10 * Value(digits[..|digits| - 1]) + digits[|digits| - 1]
  }

  /** Decimal digits without a leading zero: the pattern [1-9][0-9]*. */
  predicate Canonical(digits: seq<nat>) {
    digits != [] && digits[0] != 0 && forall i :: 0 <= i < |digits| ==> digits[i] < 10
  }

  function Digits(n: nat): seq<nat> {
    if n == 0 then [] else Digits(n / 10) + [n % 10]
  }

  function PrintTerm(t: Term): seq<Token> {
    match t
    case Index(n) => [Number(Digits(n))]
    case Paren(e) => [LParen] + PrintExpr(e) + [RParen]
  }

  function PrintConj(c: Conj): seq<Token> {
    match c
    case Single(t) => PrintTerm(t)
    case And(init, last) => PrintConj(init) + [AndToken] + PrintTerm(last)
  }

  function PrintExpr(e: Expr): seq<Token> {
    match e
    case Alone(c) => PrintConj(c)
    case Or(init, last) => PrintExpr(init) + [OrToken] + PrintConj(last)
  }

  function Max(a: nat, b: nat): nat {
    if a >= b then a else b
  }

  /** How deep parentheses nest. */
  function TermDepth(t: Term): nat {
    match t
    case Index(_) => 0
    case Paren(e) => 1 + ExprDepth(e)
  }

  function ConjDepth(c: Conj): nat {
    match c
    case Single(t) => TermDepth(t)
    case And(init, last) => Max(ConjDepth(init), TermDepth(last))
  }

  function ExprDepth(e: Expr): nat {
    match e
    case Alone(c) => ConjDepth(c)
    case Or(init, last) => Max(ExprDepth(init), ConjDepth(last))
  }

  /** Every index names one of `n` criteria. */
  predicate TermInRange(t: Term, n: nat) {
    match t
    case Index(i) => 1 <= i <= n
    case Paren(e) => ExprInRange(e, n)
  }

  predicate ConjInRange(c: Conj, n: nat) {
    match c
    case Single(t) => TermInRange(t, n)
    case And(init, last) => ConjInRange(init, n) && TermInRange(last, n)
  }

  predicate ExprInRange(e: Expr, n: nat) {
    match e
    case Alone(c) => ConjInRange(c, n)
    case Or(init, last) => ExprInRange(init, n) && ConjInRange(last, n)
  }

  // ----- the meaning of a tree

  function EvalTerm(t: Term, states: seq<VState>): VState
    requires TermInRange(t, |states|)
  {
    match t
    case Index(i) => states[i - 1]
    case Paren(e) => EvalExpr(e, states)
  }

  function EvalConj(c: Conj, states: seq<VState>): VState
    requires ConjInRange(c, |states|)
  {
    match c
    case Single(t) => EvalTerm(t, states)
    case And(init, last) => Combine([EvalConj(init, states), EvalTerm(last, states)], AND)
  }

  function EvalExpr(e: Expr, states: seq<VState>): VState
    requires ExprInRange(e, |states|)
  {
    match e
    case Alone(c) => EvalConj(c, states)
    case Or(init, last) => Combine([EvalExpr(init, states), EvalConj(last, states)], OR)
  }

  // ----- the parser as a function of the tokens and the number of criteria

  datatype Parsed<T> = Failed | Got(tree: T, next: nat)

  function ParseTerm(tokens: seq<Token>, at: nat, depth: nat, n: nat): (r: Parsed<Term>)
    ensures r.Got? ==> at < r.next <= |tokens|
    decreases |tokens| - at, 0
  {
    if depth > MAX_DEPTH || at >= |tokens| then Failed
    else match tokens[at]
      case LParen =>
        (match ParseExpr(tokens, at + 1, depth + 1, n)
         case Failed => Failed
         case Got(e, next) => if next < |tokens| && tokens[next] == RParen then Got(Paren(e), next + 1) else Failed)
      case Number(digits) =>
        if Canonical(digits) && 1 <= Value(digits) <= n then Got(Index(Value(digits)), at + 1) else Failed
      case _ => Failed
  }

  function ParseConj(tokens: seq<Token>, at: nat, depth: nat, n: nat): (r: Parsed<Conj>)
    ensures r.Got? ==> at < r.next <= |tokens|
    decreases |tokens| - at, 1
  {
    match ParseTerm(tokens, at, depth, n)
    case Failed => Failed
    case Got(t, next) => ConjRest(tokens, Single(t), next, depth, n)
  }

  function ConjRest(tokens: seq<Token>, acc: Conj, at: nat, depth: nat, n: nat): (r: Parsed<Conj>)
    requires at <= |tokens|
    ensures r.Got? ==> at <= r.next <= |tokens|
    decreases |tokens| - at, 1
  {
    if at < |tokens| && tokens[at] == AndToken then
      match ParseTerm(tokens, at + 1, depth, n)
      case Failed => Failed
      case Got(t, next) => ConjRest(tokens, And(acc, t), next, depth, n)
    else Got(acc, at)
  }

  function ParseExpr(tokens: seq<Token>, at: nat, depth: nat, n: nat): (r: Parsed<Expr>)
    ensures r.Got? ==> at < r.next <= |tokens|
    decreases |tokens| - at, 2
  {
    match ParseConj(tokens, at, depth, n)
    case Failed => Failed
    case Got(c, next) => ExprRest(tokens, Alone(c), next, depth, n)
  }

  function ExprRest(tokens: seq<Token>, acc: Expr, at: nat, depth: nat, n: nat): (r: Parsed<Expr>)
    requires at <= |tokens|
    ensures r.Got? ==> at <= r.next <= |tokens|
    decreases |tokens| - at, 2
  {
    if at < |tokens| && tokens[at] == OrToken then
      match ParseConj(tokens, at + 1, depth, n)
      case Failed => Failed
      case Got(c, next) => ExprRest(tokens, Or(acc, c), next, depth, n)
    else Got(acc, at)
  }

  /** The tree of a token list, when the evaluator accepts it against `n` criteria. */
  function Parse(tokens: seq<Token>, n: nat): Parsed<Expr> {
    if |tokens| > MAX_TOKENS then Failed
    else match ParseExpr(tokens, 0, 0, n)
      case Failed => Failed
      case Got(e, next) => if next == |tokens| then Got(e, next) else Failed
  }

  // ----- digits

  lemma {:induction false} ValueOfDigits(n: nat)
    ensures Value(Digits(n)) == n
    ensures n > 0 ==> Canonical(Digits(n))
  {
    if n > 0 {
      ValueOfDigits(n / 10);
    }
  }

  lemma {:induction false} DigitsOfValue(digits: seq<nat>)
    requires Canonical(digits)
    ensures Value(digits) > 0 && Digits(Value(digits)) == digits
  {
    var k := |digits| - 1;
    if k > 0 {
      assert digits[..k][0] == digits[0];
      DigitsOfValue(digits[..k]);
      assert Value(digits) / 10 == Value(digits[..k]) && Value(digits) % 10 == digits[k];
      assert digits == digits[..k] + [digits[k]];
    } else {
      assert Value(digits[..0]) == 0 && Value(digits) == digits[0];
      assert Digits(digits[0] / 10) == [];
      assert digits == [] + [digits[0]];
    }
  }

  // ----- the parser accepts only sentences of the grammar

  predicate At(tokens: seq<Token>, at: nat, xs: seq<Token>) {
    at + |xs| <= |tokens| && tokens[at..at + |xs|] == xs
  }

  lemma AtJoin(tokens: seq<Token>, at: nat, xs: seq<Token>, ys: seq<Token>)
    ensures At(tokens, at, xs + ys) <==> At(tokens, at, xs) && At(tokens, at + |xs|, ys)
  {
    if at + |xs + ys| <= |tokens| {
      var both := tokens[at..at + |xs + ys|];
      assert both[..|xs|] == tokens[at..at + |xs|];
      assert both[|xs|..] == tokens[at + |xs|..at + |xs| + |ys|];
      assert (xs + ys)[..|xs|] == xs && (xs + ys)[|xs|..] == ys;
      assert both == both[..|xs|] + both[|xs|..];
    }
  }

  lemma AtThrough(tokens: seq<Token>, at: nat, xs: seq<Token>, tok: Token, ys: seq<Token>)
    ensures At(tokens, at, xs + [tok] + ys) <==>
      && At(tokens, at, xs) && at + |xs| < |tokens| && tokens[at + |xs|] == tok && At(tokens, at + |xs| + 1, ys)
  {
    AtJoin(tokens, at, xs + [tok], ys);
    AtJoin(tokens, at, xs, [tok]);
    if at + |xs| < |tokens| {
      assert tokens[at + |xs|..at + |xs| + 1] == [tokens[at + |xs|]];
    }
  }

  lemma {:induction false} TermSound(tokens: seq<Token>, at: nat, depth: nat, n: nat)
    requires ParseTerm(tokens, at, depth, n).Got?
    ensures var r := ParseTerm(tokens, at, depth, n);
      && At(tokens, at, PrintTerm(r.tree)) && r.next == at + |PrintTerm(r.tree)|
      && TermInRange(r.tree, n) && depth + TermDepth(r.tree) <= MAX_DEPTH
    decreases |tokens| - at, 0
  {
    match tokens[at]
    case LParen =>
      ExprSound(tokens, at + 1, depth + 1, n);
      var e := ParseExpr(tokens, at + 1, depth + 1, n).tree;
      AtJoin(tokens, at, [LParen], PrintExpr(e));
      AtJoin(tokens, at, [LParen] + PrintExpr(e), [RParen]);
    case Number(digits) => DigitsOfValue(digits);
  }

  lemma {:induction false} ConjSound(tokens: seq<Token>, at: nat, depth: nat, n: nat)
    requires ParseConj(tokens, at, depth, n).Got?
    ensures var r := ParseConj(tokens, at, depth, n);
      && At(tokens, at, PrintConj(r.tree)) && r.next == at + |PrintConj(r.tree)|
      && ConjInRange(r.tree, n) && depth + ConjDepth(r.tree) <= MAX_DEPTH
    decreases |tokens| - at, 1
  {
    TermSound(tokens, at, depth, n);
    var r := ParseTerm(tokens, at, depth, n);
    ConjRestSound(tokens, at, Single(r.tree), r.next, depth, n);
  }

  lemma AndExtends(tokens: seq<Token>, from: nat, acc: Conj, t: Term)
    requires At(tokens, from, PrintConj(acc))
    requires var at := from + |PrintConj(acc)|;
      at < |tokens| && tokens[at] == AndToken && At(tokens, at + 1, PrintTerm(t))
    ensures At(tokens, from, PrintConj(And(acc, t)))
    ensures |PrintConj(And(acc, t))| == |PrintConj(acc)| + 1 + |PrintTerm(t)|
  {
    AtThrough(tokens, from, PrintConj(acc), AndToken, PrintTerm(t));
  }

  lemma {:induction false} ConjRestSound(tokens: seq<Token>, from: nat, acc: Conj, at: nat, depth: nat, n: nat)
    requires at <= |tokens| && ConjRest(tokens, acc, at, depth, n).Got?
    requires At(tokens, from, PrintConj(acc)) && at == from + |PrintConj(acc)|
    requires ConjInRange(acc, n) && depth + ConjDepth(acc) <= MAX_DEPTH
    ensures var r := ConjRest(tokens, acc, at, depth, n);
      && At(tokens, from, PrintConj(r.tree)) && r.next == from + |PrintConj(r.tree)|
      && ConjInRange(r.tree, n) && depth + ConjDepth(r.tree) <= MAX_DEPTH
    decreases |tokens| - at, 1
  {
    if at < |tokens| && tokens[at] == AndToken {
      TermSound(tokens, at + 1, depth, n);
      var r := ParseTerm(tokens, at + 1, depth, n);
      AndExtends(tokens, from, acc, r.tree);
      ConjRestSound(tokens, from, And(acc, r.tree), r.next, depth, n);
    }
  }

  lemma {:induction false} ExprSound(tokens: seq<Token>, at: nat, depth: nat, n: nat)
    requires ParseExpr(tokens, at, depth, n).Got?
    ensures var r := ParseExpr(tokens, at, depth, n);
      && At(tokens, at, PrintExpr(r.tree)) && r.next == at + |PrintExpr(r.tree)|
      && ExprInRange(r.tree, n) && depth + ExprDepth(r.tree) <= MAX_DEPTH
    decreases |tokens| - at, 2
  {
    ConjSound(tokens, at, depth, n);
    var r := ParseConj(tokens, at, depth, n);
    ExprRestSound(tokens, at, Alone(r.tree), r.next, depth, n);
  }

  lemma OrExtends(tokens: seq<Token>, from: nat, acc: Expr, c: Conj)
    requires At(tokens, from, PrintExpr(acc))
    requires var at := from + |PrintExpr(acc)|;
      at < |tokens| && tokens[at] == OrToken && At(tokens, at + 1, PrintConj(c))
    ensures At(tokens, from, PrintExpr(Or(acc, c)))
    ensures |PrintExpr(Or(acc, c))| == |PrintExpr(acc)| + 1 + |PrintConj(c)|
  {
    AtThrough(tokens, from, PrintExpr(acc), OrToken, PrintConj(c));
  }

  lemma {:induction false} ExprRestSound(tokens: seq<Token>, from: nat, acc: Expr, at: nat, depth: nat, n: nat)
    requires at <= |tokens| && ExprRest(tokens, acc, at, depth, n).Got?
    requires At(tokens, from, PrintExpr(acc)) && at == from + |PrintExpr(acc)|
    requires ExprInRange(acc, n) && depth + ExprDepth(acc) <= MAX_DEPTH
    ensures var r := ExprRest(tokens, acc, at, depth, n);
      && At(tokens, from, PrintExpr(r.tree)) && r.next == from + |PrintExpr(r.tree)|
      && ExprInRange(r.tree, n) && depth + ExprDepth(r.tree) <= MAX_DEPTH
    decreases |tokens| - at, 2
  {
    if at < |tokens| && tokens[at] == OrToken {
      ConjSound(tokens, at + 1, depth, n);
      var r := ParseConj(tokens, at + 1, depth, n);
      OrExtends(tokens, from, acc, r.tree);
      ExprRestSound(tokens, from, Or(acc, r.tree), r.next, depth, n);
    }
  }

  // ----- the parser accepts every sentence of the grammar, and finds its tree

  predicate TermFits(t: Term, tokens: seq<Token>, at: nat, depth: nat, n: nat) {
    At(tokens, at, PrintTerm(t)) && TermInRange(t, n) && depth + TermDepth(t) <= MAX_DEPTH
  }

  predicate ConjFits(c: Conj, tokens: seq<Token>, at: nat, depth: nat, n: nat) {
    At(tokens, at, PrintConj(c)) && ConjInRange(c, n) && depth + ConjDepth(c) <= MAX_DEPTH
  }

  predicate ExprFits(e: Expr, tokens: seq<Token>, at: nat, depth: nat, n: nat) {
    At(tokens, at, PrintExpr(e)) && ExprInRange(e, n) && depth + ExprDepth(e) <= MAX_DEPTH
  }

  lemma ParenParts(e: Expr, tokens: seq<Token>, at: nat, depth: nat, n: nat) returns (close: nat)
    requires TermFits(Paren(e), tokens, at, depth, n)
    ensures ExprFits(e, tokens, at + 1, depth + 1, n) && close == at + 1 + |PrintExpr(e)|
    ensures close < |tokens| && tokens[at] == LParen && tokens[close] == RParen
    ensures close + 1 == at + |PrintTerm(Paren(e))|
  {
    AtThrough(tokens, at, [], LParen, PrintExpr(e) + [RParen]);
    assert [] + [LParen] + (PrintExpr(e) + [RParen]) == PrintTerm(Paren(e));
    AtThrough(tokens, at + 1, PrintExpr(e), RParen, []);
    assert PrintExpr(e) + [RParen] + [] == PrintExpr(e) + [RParen];
    close := at + 1 + |PrintExpr(e)|;
  }

  lemma AndParts(init: Conj, last: Term, tokens: seq<Token>, at: nat, depth: nat, n: nat) returns (mid: nat)
    requires ConjFits(And(init, last), tokens, at, depth, n)
    ensures ConjFits(init, tokens, at, depth, n) && mid == at + |PrintConj(init)|
    ensures mid < |tokens| && tokens[mid] == AndToken && TermFits(last, tokens, mid + 1, depth, n)
    ensures at + |PrintConj(And(init, last))| == mid + 1 + |PrintTerm(last)|
  {
    AtThrough(tokens, at, PrintConj(init), AndToken, PrintTerm(last));
    mid := at + |PrintConj(init)|;
  }

  lemma OrParts(init: Expr, last: Conj, tokens: seq<Token>, at: nat, depth: nat, n: nat) returns (mid: nat)
    requires ExprFits(Or(init, last), tokens, at, depth, n)
    ensures ExprFits(init, tokens, at, depth, n) && mid == at + |PrintExpr(init)|
    ensures mid < |tokens| && tokens[mid] == OrToken && ConjFits(last, tokens, mid + 1, depth, n)
    ensures at + |PrintExpr(Or(init, last))| == mid + 1 + |PrintConj(last)|
  {
    AtThrough(tokens, at, PrintExpr(init), OrToken, PrintConj(last));
    mid := at + |PrintExpr(init)|;
  }

  lemma ConjStep(tokens: seq<Token>, from: nat, acc: Conj, at: nat, t: Term, next: nat, depth: nat, n: nat)
    requires at < |tokens| && tokens[at] == AndToken
    requires ParseConj(tokens, from, depth, n) == ConjRest(tokens, acc, at, depth, n)
    requires ParseTerm(tokens, at + 1, depth, n) == Got(t, next)
    ensures ParseConj(tokens, from, depth, n) == ConjRest(tokens, And(acc, t), next, depth, n)
  {
  }

  /** No further AND continues a conjunction here. */
  predicate ConjEnds(tokens: seq<Token>, at: nat) {
    at <= |tokens| && (at < |tokens| ==> tokens[at] != AndToken)
  }

  lemma ExprStart(tokens: seq<Token>, at: nat, c: Conj, next: nat, depth: nat, n: nat)
    requires ConjEnds(tokens, next) && ParseConj(tokens, at, depth, n) == ConjRest(tokens, c, next, depth, n)
    ensures ParseExpr(tokens, at, depth, n) == ExprRest(tokens, Alone(c), next, depth, n)
  {
  }

  lemma ExprStep(tokens: seq<Token>, from: nat, acc: Expr, at: nat, c: Conj, next: nat, depth: nat, n: nat)
    requires at < |tokens| && tokens[at] == OrToken && ConjEnds(tokens, next)
    requires ParseExpr(tokens, from, depth, n) == ExprRest(tokens, acc, at, depth, n)
    requires ParseConj(tokens, at + 1, depth, n) == ConjRest(tokens, c, next, depth, n)
    ensures ParseExpr(tokens, from, depth, n) == ExprRest(tokens, Or(acc, c), next, depth, n)
  {
  }

  lemma {:induction false} TermComplete(t: Term, tokens: seq<Token>, at: nat, depth: nat, n: nat)
    requires TermFits(t, tokens, at, depth, n)
    ensures ParseTerm(tokens, at, depth, n) == Got(t, at + |PrintTerm(t)|)
    decreases t
  {
    match t
    case Index(i) =>
      ValueOfDigits(i);
      assert tokens[at] == tokens[at..at + 1][0];
    case Paren(e) =>
      var close := ParenParts(e, tokens, at, depth, n);
      ExprComplete(e, tokens, at + 1, depth + 1, n);
  }

  lemma {:induction false} ConjComplete(c: Conj, tokens: seq<Token>, at: nat, depth: nat, n: nat)
    requires ConjFits(c, tokens, at, depth, n)
    ensures ParseConj(tokens, at, depth, n) == ConjRest(tokens, c, at + |PrintConj(c)|, depth, n)
    decreases c, 2
  {
    match c
    case Single(t) => TermComplete(t, tokens, at, depth, n);
    case And(init, last) =>
      AndComplete(init, last, tokens, at, depth, n);
  }

  /** Both operands of the last AND are read where they were printed. */
  lemma {:induction false} AndRead(init: Conj, last: Term, tokens: seq<Token>, at: nat, depth: nat, n: nat)
    returns (mid: nat, next: nat)
    requires ConjFits(And(init, last), tokens, at, depth, n)
    ensures mid < |tokens| && tokens[mid] == AndToken && next == at + |PrintConj(And(init, last))|
    ensures ParseConj(tokens, at, depth, n) == ConjRest(tokens, init, mid, depth, n)
    ensures ParseTerm(tokens, mid + 1, depth, n) == Got(last, next)
    decreases And(init, last), 0
  {
    mid := AndParts(init, last, tokens, at, depth, n);
    next := mid + 1 + |PrintTerm(last)|;
    ConjComplete(init, tokens, at, depth, n);
    TermComplete(last, tokens, mid + 1, depth, n);
  }

  lemma {:induction false} AndComplete(init: Conj, last: Term, tokens: seq<Token>, at: nat, depth: nat, n: nat)
    requires ConjFits(And(init, last), tokens, at, depth, n)
    ensures ParseConj(tokens, at, depth, n)
         == ConjRest(tokens, And(init, last), at + |PrintConj(And(init, last))|, depth, n)
    decreases And(init, last), 1
  {
    var mid, next := AndRead(init, last, tokens, at, depth, n);
    ConjStep(tokens, at, init, mid, last, next, depth, n);
  }

  lemma {:induction false} ExprComplete(e: Expr, tokens: seq<Token>, at: nat, depth: nat, n: nat)
    requires ExprFits(e, tokens, at, depth, n)
    requires ConjEnds(tokens, at + |PrintExpr(e)|)
    ensures ParseExpr(tokens, at, depth, n) == ExprRest(tokens, e, at + |PrintExpr(e)|, depth, n)
    decreases e, 1
  {
    match e
    case Alone(c) =>
      ConjComplete(c, tokens, at, depth, n);
      ExprStart(tokens, at, c, at + |PrintConj(c)|, depth, n);
    case Or(init, last) => OrComplete(init, last, tokens, at, depth, n);
  }

  lemma {:induction false} OrComplete(init: Expr, last: Conj, tokens: seq<Token>, at: nat, depth: nat, n: nat)
    requires ExprFits(Or(init, last), tokens, at, depth, n)
    requires ConjEnds(tokens, at + |PrintExpr(Or(init, last))|)
    ensures ParseExpr(tokens, at, depth, n)
         == ExprRest(tokens, Or(init, last), at + |PrintExpr(Or(init, last))|, depth, n)
    decreases Or(init, last), 0
  {
    var mid := OrParts(init, last, tokens, at, depth, n);
    var next := mid + 1 + |PrintConj(last)|;
    ExprComplete(init, tokens, at, depth, n);
    ConjComplete(last, tokens, mid + 1, depth, n);
    ExprStep(tokens, at, init, mid, last, next, depth, n);
  }

  /** `e` is a sentence within the bounds: its indices exist, its parentheses nest at most
      25 deep and it prints to at most 150 tokens. */
  predicate Sentence(e: Expr, n: nat) {
    ExprInRange(e, n) && ExprDepth(e) <= 25 && |PrintExpr(e)| <= 150
  }

  /** The evaluator accepts exactly the printed sentences, each with the tree it was printed from. */
  lemma ParseExactly(tokens: seq<Token>, n: nat, e: Expr)
    ensures Parse(tokens, n) == Got(e, |tokens|) <==> Sentence(e, n) && tokens == PrintExpr(e)
  {
    if Sentence(e, n) && tokens == PrintExpr(e) {
      assert tokens[0..|tokens|] == tokens;
      ExprComplete(e, tokens, 0, 0, n);
    }
    if Parse(tokens, n) == Got(e, |tokens|) {
      ExprSound(tokens, 0, 0, n);
      assert tokens[0..|tokens|] == tokens;
    }
  }

  // ----- the whole filter

  datatype Outcome = Threw | Answer(state: VState)

  /** What the filter evaluates to: the meaning of the tree, or an exception. */
  function Filter(tokens: seq<Token>, states: seq<VState>): Outcome {
    match Parse(tokens, |states|)
    case Failed => Threw
    case Got(e, next) =>
      if ExprInRange(e, |states|) then Answer(EvalExpr(e, states)) else Threw
  }

  /** The filter answers exactly on sentences, with the sentence's meaning. */
  lemma FilterMeaning(tokens: seq<Token>, states: seq<VState>)
    ensures forall e :: Sentence(e, |states|) && tokens == PrintExpr(e) ==>
              Filter(tokens, states) == Answer(EvalExpr(e, states))
    ensures Filter(tokens, states).Answer? ==>
              exists e :: Sentence(e, |states|) && tokens == PrintExpr(e)
  {
    forall e | Sentence(e, |states|) && tokens == PrintExpr(e)
      ensures Filter(tokens, states) == Answer(EvalExpr(e, states))
    {
      ParseExactly(tokens, |states|, e);
    }
    if Filter(tokens, states).Answer? {
      var e := Parse(tokens, |states|).tree;
      ParseExactly(tokens, |states|, e);
    }
  }

  /** Whether a filter is accepted depends on how many criteria there are, never on their states. */
  lemma AcceptanceIgnoresStates(tokens: seq<Token>, ss: seq<VState>, ss': seq<VState>)
    requires |ss| == |ss'|
    ensures Filter(tokens, ss).Answer? <==> Filter(tokens, ss').Answer?
  {
  }

  lemma {:induction false} TermSettles(t: Term, ss: seq<VState>, ss': seq<VState>)
    requires |ss| == |ss'| && TermInRange(t, |ss|)
    ensures AllRefine(ss, ss') ==> Refines(EvalTerm(t, ss), EvalTerm(t, ss'))
    ensures AllSettle(ss, ss') ==> Settles(EvalTerm(t, ss), EvalTerm(t, ss'))
    decreases t
  {
    if t.Paren? {
      ExprSettles(t.e, ss, ss');
    }
  }

  lemma {:induction false} ConjSettles(c: Conj, ss: seq<VState>, ss': seq<VState>)
    requires |ss| == |ss'| && ConjInRange(c, |ss|)
    ensures AllRefine(ss, ss') ==> Refines(EvalConj(c, ss), EvalConj(c, ss'))
    ensures AllSettle(ss, ss') ==> Settles(EvalConj(c, ss), EvalConj(c, ss'))
    decreases c
  {
    match c
    case Single(t) => TermSettles(t, ss, ss');
    case And(init, last) =>
      ConjSettles(init, ss, ss');
      TermSettles(last, ss, ss');
      PairSettles(EvalConj(init, ss), EvalTerm(last, ss), EvalConj(init, ss'), EvalTerm(last, ss'), AND);
  }

  lemma {:induction false} ExprSettles(e: Expr, ss: seq<VState>, ss': seq<VState>)
    requires |ss| == |ss'| && ExprInRange(e, |ss|)
    ensures AllRefine(ss, ss') ==> Refines(EvalExpr(e, ss), EvalExpr(e, ss'))
    ensures AllSettle(ss, ss') ==> Settles(EvalExpr(e, ss), EvalExpr(e, ss'))
    decreases e
  {
    match e
    case Alone(c) => ConjSettles(c, ss, ss');
    case Or(init, last) =>
      ExprSettles(init, ss, ss');
      ConjSettles(last, ss, ss');
      PairSettles(EvalExpr(init, ss), EvalConj(last, ss), EvalExpr(init, ss'), EvalConj(last, ss'), OR);
  }

  lemma PairSettles(a: VState, b: VState, a': VState, b': VState, op: Op)
    ensures Refines(a, a') && Refines(b, b') ==> Refines(Combine([a, b], op), Combine([a', b'], op))
    ensures Settles(a, a') && Settles(b, b') ==> Settles(Combine([a, b], op), Combine([a', b'], op))
  {
    if Refines(a, a') && Refines(b, b') {
      CombineMonotone([a, b], [a', b'], op);
    }
    if Settles(a, a') && Settles(b, b') {
      CombineSettles([a, b], [a', b'], op);
    }
  }

  /** A filter keeps its decisions as more becomes known, and a PENDING filter is decided
      as soon as its pending inputs are. */
  lemma FilterSettles(tokens: seq<Token>, ss: seq<VState>, ss': seq<VState>)
    requires |ss| == |ss'| && Filter(tokens, ss).Answer?
    ensures Filter(tokens, ss').Answer?
    ensures AllRefine(ss, ss') ==> Refines(Filter(tokens, ss).state, Filter(tokens, ss').state)
    ensures AllSettle(ss, ss') ==> Settles(Filter(tokens, ss).state, Filter(tokens, ss').state)
  {
    ExprSettles(Parse(tokens, |ss|).tree, ss, ss');
  }

  // ----- the evaluator itself: one pass with a moving offset

  class FilterEvaluator {
    const tokens: seq<Token>
    const states: seq<VState>
    var offset: nat

    constructor (tokens: seq<Token>, states: seq<VState>)
      ensures this.tokens == tokens && this.states == states && offset == 0
    {
      this.tokens, this.states, offset := tokens, states, 0;
    }

    method TermAt(depth: nat) returns (r: Outcome)
      requires offset <= |tokens|
      modifies this
      ensures r.Threw? <==> ParseTerm(tokens, old(offset), depth, |states|).Failed?
      ensures var p := ParseTerm(tokens, old(offset), depth, |states|);
        p.Got? ==> offset == p.next && TermInRange(p.tree, |states|) && r == Answer(EvalTerm(p.tree, states))
      decreases |tokens| - offset, 0
    {
      if depth > MAX_DEPTH || offset == |tokens| {
        return Threw;
      }
      ghost var from := offset;
      var token := tokens[offset];
      offset := offset + 1;
      match token
      case LParen =>
        r := ExpressionAt(depth + 1);
        if r.Threw? {
          return;
        }
        if offset == |tokens| || tokens[offset] != RParen {
          return Threw;
        }
        offset := offset + 1;
      case Number(digits) =>
        if !Canonical(digits) || Value(digits) > |states| {
          return Threw;
        }
        DigitsOfValue(digits);
        return Answer(states[Value(digits) - 1]);
      case _ => return Threw;
    }

    method ConjunctionAt(depth: nat) returns (r: Outcome)
      requires offset <= |tokens|
      modifies this
      ensures r.Threw? <==> ParseConj(tokens, old(offset), depth, |states|).Failed?
      ensures var p := ParseConj(tokens, old(offset), depth, |states|);
        p.Got? ==> offset == p.next && ConjInRange(p.tree, |states|) && r == Answer(EvalConj(p.tree, states))
      decreases |tokens| - offset, 1
    {
      ghost var from := offset;
      r := TermAt(depth);
      if r.Threw? {
        return;
      }
      ghost var acc := Single(ParseTerm(tokens, from, depth, |states|).tree);
      while offset < |tokens| && tokens[offset] == AndToken
        invariant from < offset <= |tokens|
        invariant ConjInRange(acc, |states|) && r == Answer(EvalConj(acc, states))
        invariant ParseConj(tokens, from, depth, |states|) == ConjRest(tokens, acc, offset, depth, |states|)
        decreases |tokens| - offset
      {
        offset := offset + 1;
        ghost var at := offset;
        var value := r.state;
        r := TermAt(depth);
        if r.Threw? {
          return;
        }
        acc := And(acc, ParseTerm(tokens, at, depth, |states|).tree);
        r := Answer(Combine([value, r.state], Op.AND));
      }
    }

    method ExpressionAt(depth: nat) returns (r: Outcome)
      requires offset <= |tokens|
      modifies this
      ensures r.Threw? <==> ParseExpr(tokens, old(offset), depth, |states|).Failed?
      ensures var p := ParseExpr(tokens, old(offset), depth, |states|);
        p.Got? ==> offset == p.next && ExprInRange(p.tree, |states|) && r == Answer(EvalExpr(p.tree, states))
      decreases |tokens| - offset, 2
    {
      ghost var from := offset;
      r := ConjunctionAt(depth);
      if r.Threw? {
        return;
      }
      ghost var acc := Alone(ParseConj(tokens, from, depth, |states|).tree);
      while offset < |tokens| && tokens[offset] == OrToken
        invariant from < offset <= |tokens|
        invariant ExprInRange(acc, |states|) && r == Answer(EvalExpr(acc, states))
        invariant ParseExpr(tokens, from, depth, |states|) == ExprRest(tokens, acc, offset, depth, |states|)
        decreases |tokens| - offset
      {
        offset := offset + 1;
        ghost var at := offset;
        var value := r.state;
        r := ConjunctionAt(depth);
        if r.Threw? {
          return;
        }
        acc := Or(acc, ParseConj(tokens, at, depth, |states|).tree);
        r := Answer(Combine([value, r.state], Op.OR));
      }
    }
  }

  method EvaluateFilter(tokens: seq<Token>, states: seq<VState>) returns (r: Outcome)
    ensures r == Filter(tokens, states)
    ensures r.Answer? <==> exists e :: Sentence(e, |states|) && tokens == PrintExpr(e)
  {
    FilterMeaning(tokens, states);
    if |tokens| > MAX_TOKENS {
      return Threw;
    }
    var evaluator := new FilterEvaluator(tokens, states);
    r := evaluator.ExpressionAt(0);
    if r.Answer? && evaluator.offset != |tokens| {
      return Threw;
    }
  }
}

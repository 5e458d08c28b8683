/** The four-state visibility logic. */
module Visibility {

  datatype VState = VISIBLE | HIDDEN | PENDING | UNKNOWN
  {
    predicate Decided() {
      VISIBLE? || HIDDEN?
    }
  }

  datatype Op = AND | OR

  function Combine(states: seq<VState>, op: Op): VState {
    if op == AND && HIDDEN in states then HIDDEN
    else if op == OR && VISIBLE in states then VISIBLE
    else if UNKNOWN in states then UNKNOWN
    else if PENDING in states then PENDING
    else if op == AND then VISIBLE else HIDDEN
  }

  // ----- how the states relate when more becomes known

  /** `s'` knows at least what `s` knows. */
  predicate Refines(s: VState, s': VState) {
    s.Decided() ==> s' == s
  }

  /** `s'` keeps what `s` decided and decides what was pending; about UNKNOWN nothing is said. */
  predicate Settles(s: VState, s': VState) {
    Refines(s, s') && (s.PENDING? ==> s'.Decided())
  }

  predicate AllRefine(ss: seq<VState>, ss': seq<VState>) {
    |ss| == |ss'| && forall i :: 0 <= i < |ss| ==> Refines(ss[i], ss'[i])
  }

  predicate AllSettle(ss: seq<VState>, ss': seq<VState>) {
    |ss| == |ss'| && forall i :: 0 <= i < |ss| ==> Settles(ss[i], ss'[i])
  }

  /** What AND and OR mean: a dominant input decides, otherwise the least known input rules. */
  lemma CombineMeaning(states: seq<VState>)
    ensures Combine(states, AND) == HIDDEN <==> HIDDEN in states
    ensures Combine(states, AND) == VISIBLE <==> forall s :: s in states ==> s == VISIBLE
    ensures Combine(states, OR) == VISIBLE <==> VISIBLE in states
    ensures Combine(states, OR) == HIDDEN <==> forall s :: s in states ==> s == HIDDEN
    ensures Combine(states, AND) == PENDING <==> HIDDEN !in states && UNKNOWN !in states && PENDING in states
    ensures Combine(states, OR) == PENDING <==> VISIBLE !in states && UNKNOWN !in states && PENDING in states
  {
    forall s | s in states ensures s == VISIBLE || s == HIDDEN || s == PENDING || s == UNKNOWN {}
  }

  /** Learning more never overturns a decision. */
  lemma CombineMonotone(ss: seq<VState>, ss': seq<VState>, op: Op)
    requires AllRefine(ss, ss')
    ensures Refines(Combine(ss, op), Combine(ss', op))
  {
    CombineMeaning(ss);
    CombineMeaning(ss');
    if Combine(ss, op).Decided() {
      var dominant := if op == AND then HIDDEN else VISIBLE;
      if dominant in ss {
        var i :| 0 <= i < |ss| && ss[i] == dominant;
        assert ss'[i] == dominant;
      } else {
        forall s | s in ss' ensures s == Combine(ss, op) {
          var i :| 0 <= i < |ss'| && ss'[i] == s;
          assert ss[i] in ss;
        }
      }
    }
  }

  /** PENDING promises an answer: settle the pending inputs and the result is decided. */
  lemma CombineSettles(ss: seq<VState>, ss': seq<VState>, op: Op)
    requires AllSettle(ss, ss')
    ensures Settles(Combine(ss, op), Combine(ss', op))
  {
    CombineMonotone(ss, ss', op);
    CombineMeaning(ss);
    CombineMeaning(ss');
    if Combine(ss, op) == PENDING {
      forall s | s in ss' ensures s.Decided() {
        var i :| 0 <= i < |ss'| && ss'[i] == s;
        assert ss[i] in ss;
      }
    }
  }
}

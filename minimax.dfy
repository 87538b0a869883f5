/** Minimax search with alpha-beta pruning over a finite game tree. The game
    engine's four queries (is a state terminal, its evaluation, whether the
    side to move is the one the evaluation favours, its successors) are read
    off the tree itself. */
module Minimax {

  datatype Option<T> = None | Some(value: T)

  /** An evaluation: a finite number or one of the two infinities. */
  datatype Score = NegInf | Finite(v: real) | PosInf
  {
    predicate Lt(other: Score)
    {
      match this
      case NegInf => !other.NegInf?
      case Finite(a) => other.PosInf? || (other.Finite? && a < other.v)
      case PosInf => false
    }

    predicate Le(other: Score) { !other.Lt(this) }

    function Max(other: Score): (r: Score)
      ensures Le(r) && other.Le(r)
      ensures r == this || r == other
    {
      if Lt(other) then other else this
    }

    function Min(other: Score): (r: Score)
      ensures r.Le(this) && r.Le(other)
      ensures r == this || r == other
    {
      if other.Lt(this) then other else this
    }
  }

  /** A game state as the search sees it. */
  datatype Node<A> = Node(terminal: bool, evaluation: Score, favorable: bool, successors: seq<Move<A>>)

  /** An action (absent for the move that stays on a terminal state) and the
      state it leads to. */
  datatype Move<A> = Move(action: Option<A>, state: Node<A>)

  /** The search's starting extreme: the worst value for the side to move. */
  function Init(favorable: bool): (r: Score)
    ensures favorable ==> forall s: Score :: r.Le(s)
    ensures !favorable ==> forall s: Score :: s.Le(r)
  {
    if favorable then NegInf else PosInf
  }

  /** The best of `answers` for the side to move, starting from Init: what
      the scan keeps as its extreme value. */
  function Extreme(favorable: bool, answers: seq<Score>): (r: Score)
    ensures answers == [] ==> r == Init(favorable)
    ensures answers != [] ==> r in answers
    ensures forall i :: 0 <= i < |answers| ==> if favorable then answers[i].Le(r) else r.Le(answers[i])
  {
    if answers == [] then Init(favorable)
    else
      var init := answers[..|answers| - 1];
      var e := Extreme(favorable, init);
      var x := answers[|answers| - 1];
      assert forall i :: 0 <= i < |init| ==> answers[i] == init[i];
      if Improves(favorable, e, x) then x else e
  }

  /** One more answer replaces the extreme exactly when it improves on it. */
  lemma ExtremeSnoc(favorable: bool, answers: seq<Score>, x: Score)
    ensures Extreme(favorable, answers + [x]) ==
      if Improves(favorable, Extreme(favorable, answers), x) then x else Extreme(favorable, answers)
  {
    assert (answers + [x])[..|answers|] == answers;
  }

  /** The minimax value of a state: its evaluation when terminal, else the
      best of its successors' values for the side to move. */
  function Value<A>(n: Node<A>): (v: Score)
    decreases n, 1
  {
    if n.terminal then n.evaluation else Best(n, |n.successors|)
  }

  /** The best of the values of the first `i` successors of `n`, from `Init`. */
  function Best<A>(n: Node<A>, i: nat): (v: Score)
    requires i <= |n.successors|
    decreases n, 0, i
  {
    if i == 0 then Init(n.favorable)
    else
      var v := Value(n.successors[i - 1].state);
      if n.favorable then Best(n, i - 1).Max(v) else Best(n, i - 1).Min(v)
  }

  /** `r` is what a fail-soft alpha-beta search may answer for a state whose
      true value is `v`, when searched with the window (alpha, beta): exact
      inside the window, an upper bound at or below alpha, a lower bound at
      or above beta. */
  predicate FailSoft(r: Score, v: Score, alpha: Score, beta: Score)
  {
    (r.Le(alpha) ==> v.Le(r)) &&
    (alpha.Lt(r) && r.Lt(beta) ==> v == r) &&
    (beta.Le(r) ==> r.Le(v))
  }

  /** What the search knows of the successor `k` it picked with `value`. */
  predicate Chosen<A>(n: Node<A>, k: int, value: Score, alpha: Score, beta: Score)
    requires 0 <= k < |n.successors|
  {
    var vk := Value(n.successors[k].state);
    if n.favorable then
      (alpha.Lt(value) ==> (value.Lt(beta) ==> vk == value) && (beta.Le(value) ==> value.Le(vk))) &&
      (value.Le(beta) ==> forall j :: 0 <= j < k ==> Value(n.successors[j].state).Lt(value))
    else
      (value.Lt(beta) ==> (alpha.Lt(value) ==> vk == value) && (value.Le(alpha) ==> vk.Le(value))) &&
      (alpha.Le(value) ==> forall j :: 0 <= j < k ==> value.Lt(Value(n.successors[j].state)))
  }

  /** A tree whose terminal evaluations are finite and whose other states
      all have successors. */
  predicate Regular<A>(n: Node<A>)
    decreases n
  {
    if n.terminal then n.evaluation.Finite?
    else |n.successors| > 0 && forall i :: 0 <= i < |n.successors| ==> Regular(n.successors[i].state)
  }

  /** Best over a longer prefix is at least as good for the side to move. */
  lemma {:induction false} BestMonotone<A>(n: Node<A>, i: nat, j: nat)
    requires i <= j <= |n.successors|
    ensures n.favorable ==> Best(n, i).Le(Best(n, j))
    ensures !n.favorable ==> Best(n, j).Le(Best(n, i))
    decreases j - i
  {
    if i < j {
      BestMonotone(n, i, j - 1);
    }
  }

  /** Every one of the first `i` successors' values is bounded by Best(n, i). */
  lemma {:induction false} BestBoundsChildren<A>(n: Node<A>, i: nat, j: nat)
    requires j < i <= |n.successors|
    ensures n.favorable ==> Value(n.successors[j].state).Le(Best(n, i))
    ensures !n.favorable ==> Best(n, i).Le(Value(n.successors[j].state))
  {
    BestMonotone(n, j + 1, i);
  }

  /** A non-terminal state's value is that of one of its successors, and no
      successor is better for the side to move; with no successors it is Init. */
  lemma ValueIsBestChild<A>(n: Node<A>)
    requires !n.terminal
    ensures |n.successors| == 0 ==> Value(n) == Init(n.favorable)
    ensures forall j :: 0 <= j < |n.successors| ==>
      if n.favorable then Value(n.successors[j].state).Le(Value(n))
      else Value(n).Le(Value(n.successors[j].state))
    ensures |n.successors| > 0 ==> exists j :: 0 <= j < |n.successors| && Value(n.successors[j].state) == Value(n)
  {
    forall j | 0 <= j < |n.successors|
      ensures if n.favorable then Value(n.successors[j].state).Le(Value(n))
              else Value(n).Le(Value(n.successors[j].state))
    {
      BestBoundsChildren(n, |n.successors|, j);
    }
    if |n.successors| > 0 {
      BestAttained(n, |n.successors|);
    }
  }

  /** Best(n, i), for i > 0, is the value of one of the first `i` successors. */
  lemma {:induction false} BestAttained<A>(n: Node<A>, i: nat)
    requires 0 < i <= |n.successors|
    ensures exists j :: 0 <= j < i && Value(n.successors[j].state) == Best(n, i)
  {
    var v := Value(n.successors[i - 1].state);
    if i > 1 {
      BestAttained(n, i - 1);
      var j :| 0 <= j < i - 1 && Value(n.successors[j].state) == Best(n, i - 1);
      if Best(n, i) != v {
        assert Value(n.successors[j].state) == Best(n, i);
      }
    } else {
      assert Best(n, 0) == Init(n.favorable);
    }
  }

  /** On a regular tree every value is finite. */
  lemma {:induction false} RegularFinite<A>(n: Node<A>)
    requires Regular(n)
    ensures Value(n).Finite?
    decreases n, 1
  {
    if !n.terminal {
      BestFinite(n, |n.successors|);
    }
  }

  lemma {:induction false} BestFinite<A>(n: Node<A>, i: nat)
    requires Regular(n) && !n.terminal && 0 < i <= |n.successors|
    ensures Best(n, i).Finite?
    decreases n, 0, i
  {
    RegularFinite(n.successors[i - 1].state);
    if i > 1 {
      BestFinite(n, i - 1);
    }
  }

  /** The search entry point: the full window (-inf, +inf). Its value is the
      minimax value, and its move is the first successor that attains it. */
  method Minimax<A>(state: Node<A>) returns (value: Score, move: Option<Move<A>>)
    ensures value == Value(state)
    ensures state.terminal ==> move == Some(Move(None, state))
    ensures !state.terminal ==> (move.None? <==> value == Init(state.favorable))
    ensures !state.terminal && |state.successors| == 0 ==> value == Init(state.favorable) && move.None?
    ensures !state.terminal && move.Some? ==>
      exists k :: 0 <= k < |state.successors| && move.value == state.successors[k] &&
        Value(state.successors[k].state) == value &&
        forall j :: 0 <= j < k ==> Value(state.successors[j].state) != value
    ensures Regular(state) ==> value.Finite? && move.Some?
  {
    ghost var answers;
    value, move, answers := MinimaxHelper(state, NegInf, PosInf);
    if Regular(state) {
      RegularFinite(state);
    }
    if !state.terminal && move.Some? {
      ghost var k :| 0 <= k < |state.successors| && move.value == state.successors[k] &&
        Chosen(state, k, value, NegInf, PosInf);
      assert forall j :: 0 <= j < k ==> Value(state.successors[j].state) != value;
    }
  }

  /** One step of the fail-soft invariant for the side that maximises: after
      folding in a successor whose search answer `r` is fail-soft for its
      value `v` in the window (max(alpha, e), beta), the new extreme is
      fail-soft for the new best. */
  lemma MaxStep(e: Score, best: Score, r: Score, v: Score, alpha: Score, beta: Score)
    requires FailSoft(e, best, alpha, beta)
    requires alpha.Max(e).Le(beta)
    requires FailSoft(r, v, alpha.Max(e), beta)
    ensures FailSoft(if e.Lt(r) then r else e, best.Max(v), alpha, beta)
  {
  }

  /** The same step for the side that minimises. */
  lemma MinStep(e: Score, best: Score, r: Score, v: Score, alpha: Score, beta: Score)
    requires FailSoft(e, best, alpha, beta)
    requires alpha.Le(beta.Min(e))
    requires FailSoft(r, v, alpha, beta.Min(e))
    ensures FailSoft(if r.Lt(e) then r else e, best.Min(v), alpha, beta)
  {
  }

  /** The window successor `i` of `n` is searched with, after extreme `e`. */
  function Window(favorable: bool, e: Score, alpha: Score, beta: Score): (w: (Score, Score))
    ensures favorable ==> alpha.Le(w.0) && w.1 == beta
    ensures !favorable ==> w.0 == alpha && w.1.Le(beta)
  {
    if favorable then (alpha.Max(e), beta) else (alpha, beta.Min(e))
  }

  /** Whether answer `r` strictly improves on extreme `e` for the side to move. */
  predicate Improves(favorable: bool, e: Score, r: Score)
  {
    if favorable then e.Lt(r) else r.Lt(e)
  }

  /** Whether `answers[j]` is what the search of successor `j` may answer: the
      window it was searched with, after the extreme of the answers before it,
      was still open, and the answer is fail-soft for that successor's value
      in that window. */
  predicate AnsweredAt<A>(n: Node<A>, answers: seq<Score>, j: int, alpha: Score, beta: Score)
    requires 0 <= j < |answers| <= |n.successors|
  {
    var w := Window(n.favorable, Extreme(n.favorable, answers[..j]), alpha, beta);
    w.0.Le(w.1) && FailSoft(answers[j], Value(n.successors[j].state), w.0, w.1)
  }

  /** Every answer of `answers` is its successor's search answer, in order. */
  predicate AllAnswered<A>(n: Node<A>, answers: seq<Score>, alpha: Score, beta: Score)
    requires |answers| <= |n.successors|
  {
    forall j :: 0 <= j < |answers| ==> AnsweredAt(n, answers, j, alpha, beta)
  }

  /** Searching the next successor in the window left by `answers` extends
      the record by its answer, and the extreme moves to that answer exactly
      when it improves on it. */
  lemma AnsweredSnoc<A>(n: Node<A>, answers: seq<Score>, r: Score, alpha: Score, beta: Score)
    requires |answers| < |n.successors| && AllAnswered(n, answers, alpha, beta)
    requires var w := Window(n.favorable, Extreme(n.favorable, answers), alpha, beta);
      w.0.Le(w.1) && FailSoft(r, Value(n.successors[|answers|].state), w.0, w.1)
    ensures AllAnswered(n, answers + [r], alpha, beta)
    ensures Extreme(n.favorable, answers + [r]) ==
      if Improves(n.favorable, Extreme(n.favorable, answers), r) then r else Extreme(n.favorable, answers)
  {
    ExtremeSnoc(n.favorable, answers, r);
    var next := answers + [r];
    assert next[..|answers|] == answers;
    forall j | 0 <= j < |answers|
      ensures AnsweredAt(n, next, j, alpha, beta)
    {
      assert next[..j] == answers[..j];
      assert AnsweredAt(n, answers, j, alpha, beta);
    }
  }

  /** Folding successor `i`'s answer `r` into the extreme `e` keeps the
      search fail-soft, and an improving answer is Chosen. */
  lemma SearchStep<A>(n: Node<A>, i: nat, e: Score, r: Score, alpha: Score, beta: Score)
    requires i < |n.successors| && alpha.Le(beta)
    requires FailSoft(e, Best(n, i), alpha, beta)
    requires var w := Window(n.favorable, e, alpha, beta); w.0.Le(w.1) && FailSoft(r, Value(n.successors[i].state), w.0, w.1)
    ensures FailSoft(if Improves(n.favorable, e, r) then r else e, Best(n, i + 1), alpha, beta)
    ensures Improves(n.favorable, e, r) ==> Chosen(n, i, r, alpha, beta)
  {
    var v := Value(n.successors[i].state);
    if n.favorable {
      MaxStep(e, Best(n, i), r, v, alpha, beta);
    } else {
      MinStep(e, Best(n, i), r, v, alpha, beta);
    }
    if Improves(n.favorable, e, r) {
      ChosenStep(n, i, e, r, alpha, beta);
    }
  }

  /** Alpha-beta search from `state` with the window (alpha, beta): a
      terminal state answers its own evaluation, with the move that stays on
      it; any other state searches its successors. */
  method MinimaxHelper<A>(state: Node<A>, alpha: Score, beta: Score)
    returns (value: Score, move: Option<Move<A>>, ghost answers: seq<Score>)
    requires alpha.Le(beta)
    decreases state, 1
    ensures state.terminal ==> value == state.evaluation && move == Some(Move(None, state))
    ensures FailSoft(value, Value(state), alpha, beta)
    ensures !state.terminal ==> (move.None? <==> value == Init(state.favorable))
    ensures !state.terminal && move.Some? ==>
      exists k :: 0 <= k < |state.successors| && move.value == state.successors[k] &&
        Chosen(state, k, value, alpha, beta)
    ensures !state.terminal ==> |answers| <= |state.successors| && value == Extreme(state.favorable, answers)
    ensures !state.terminal ==> AllAnswered(state, answers, alpha, beta)
    ensures !state.terminal && |answers| < |state.successors| ==>
      if state.favorable then beta.Lt(value) else value.Lt(alpha)
  {
    if state.terminal {
      return state.evaluation, Some(Move(None, state)), [];
    }
    value, move, answers := SearchSuccessors(state, alpha, beta);
  }

  /** The successor scan of a non-terminal state. The extreme value and move
      start at the worst value for the side to move and no move; each
      successor's answer that is strictly better replaces them; the side to
      move raises alpha (or lowers beta) by that answer, and the scan stops
      once beta < alpha. `answers` lists the answers of the successors
      searched, in order. */
  method SearchSuccessors<A>(state: Node<A>, alpha: Score, beta: Score)
    returns (value: Score, move: Option<Move<A>>, ghost answers: seq<Score>)
    requires !state.terminal && alpha.Le(beta)
    decreases state, 0
    ensures FailSoft(value, Value(state), alpha, beta)
    ensures move.None? <==> value == Init(state.favorable)
    ensures move.Some? ==>
      exists k :: 0 <= k < |state.successors| && move.value == state.successors[k] &&
        Chosen(state, k, value, alpha, beta)
    ensures |answers| <= |state.successors| && value == Extreme(state.favorable, answers)
    ensures AllAnswered(state, answers, alpha, beta)
    ensures |answers| < |state.successors| ==>
      if state.favorable then beta.Lt(value) else value.Lt(alpha)
  {
    var fav := state.favorable;
    var a, b := alpha, beta;
    value := Init(fav);
    move := None;
    var successors := state.successors;
    var i := 0;
    ghost var k := 0;
    answers := [];
    while i < |successors|
      invariant 0 <= i <= |successors| && |answers| == i
      invariant value == Extreme(fav, answers) && AllAnswered(state, answers, alpha, beta)
      invariant (a, b) == Window(fav, value, alpha, beta)
      invariant a.Le(b)
      invariant FailSoft(value, Best(state, i), alpha, beta)
      invariant move.None? <==> value == Init(fav)
      invariant move.Some? ==> 0 <= k < i && move.value == successors[k]
      invariant move.Some? ==> Chosen(state, k, value, alpha, beta)
    {
      var nextMove := successors[i];
      assert nextMove.state < state;
      var nextEval, _, _ := MinimaxHelper(nextMove.state, a, b);
      SearchStep(state, i, value, nextEval, alpha, beta);
      AnsweredSnoc(state, answers, nextEval, alpha, beta);
      answers := answers + [nextEval];
      if Improves(fav, value, nextEval) {
        value := nextEval;
        move := Some(nextMove);
        k := i;
      }
      if fav {
        a := a.Max(nextEval);
      } else {
        b := b.Min(nextEval);
      }
      i := i + 1;
      if b.Lt(a) {
        Cutoff(state, i, value, alpha, beta);
        break;
      }
    }
  }

  /** A scan cut off after `i` successors, once the window closed, has
      answered outside the window, on the side that makes it still fail-soft
      for the whole state. */
  lemma Cutoff<A>(n: Node<A>, i: nat, e: Score, alpha: Score, beta: Score)
    requires !n.terminal && i <= |n.successors| && alpha.Le(beta)
    requires FailSoft(e, Best(n, i), alpha, beta)
    requires var w := Window(n.favorable, e, alpha, beta); w.1.Lt(w.0)
    ensures FailSoft(e, Value(n), alpha, beta)
    ensures if n.favorable then beta.Lt(e) else e.Lt(alpha)
  {
    BestMonotone(n, i, |n.successors|);
  }

  /** A successor whose answer `r` strictly improves on the extreme `e` of
      the successors before it is Chosen with `r`. */
  lemma ChosenStep<A>(n: Node<A>, i: nat, e: Score, r: Score, alpha: Score, beta: Score)
    requires i < |n.successors| && alpha.Le(beta)
    requires FailSoft(e, Best(n, i), alpha, beta)
    requires n.favorable ==>
      e.Lt(r) && alpha.Max(e).Le(beta) && FailSoft(r, Value(n.successors[i].state), alpha.Max(e), beta)
    requires !n.favorable ==>
      r.Lt(e) && alpha.Le(beta.Min(e)) && FailSoft(r, Value(n.successors[i].state), alpha, beta.Min(e))
    ensures Chosen(n, i, r, alpha, beta)
  {
    ChildrenBelow(n, i, e, alpha, beta);
  }

  /** Inside the window, every successor searched so far is bounded by the
      extreme value. */
  lemma ChildrenBelow<A>(n: Node<A>, i: nat, e: Score, alpha: Score, beta: Score)
    requires i <= |n.successors| && alpha.Le(beta)
    requires FailSoft(e, Best(n, i), alpha, beta)
    ensures n.favorable && e.Lt(beta) ==> forall j :: 0 <= j < i ==> Value(n.successors[j].state).Le(e)
    ensures !n.favorable && alpha.Lt(e) ==> forall j :: 0 <= j < i ==> e.Le(Value(n.successors[j].state))
  {
    forall j | 0 <= j < i
      ensures n.favorable ==> Value(n.successors[j].state).Le(Best(n, i))
      ensures !n.favorable ==> Best(n, i).Le(Value(n.successors[j].state))
    {
      BestBoundsChildren(n, i, j);
    }
  }
}

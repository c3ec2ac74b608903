/** Traces of events, judged by a rule that says which event is legal in which state. */
module Monitors {
  import opened Wrappers

  type Rule<!M, !E> = (M, E) -> Option<M>

  /** The state after a legal trace, or nothing at its first illegal event. */
  ghost function Accept<M, E>(rule: Rule<M, E>, m: M, trace: seq<E>): Option<M>
    decreases |trace|
  {
    if trace == [] then Some(m)
    else
      var next := rule(m, trace[0]);
      if next.None? then None else Accept(rule, next.value, trace[1..])
  }

  /** A trace is legal if and only if its first part is, and the rest is from where the first part ends. */
  lemma {:induction false} AcceptConcat<M, E>(rule: Rule<M, E>, m: M, a: seq<E>, b: seq<E>)
    ensures var first := Accept(rule, m, a);
            Accept(rule, m, a + b) == if first.None? then None else Accept(rule, first.value, b)
    decreases |a|
  {
    if a == [] {
      assert a + b == b;
    } else {
      assert (a + b)[0] == a[0] && (a + b)[1..] == a[1..] + b;
      if rule(m, a[0]).Some? {
        AcceptConcat(rule, rule(m, a[0]).value, a[1..], b);
      }
    }
  }

  lemma AcceptOne<M, E>(rule: Rule<M, E>, m: M, e: E, rest: seq<E>)
    ensures Accept(rule, m, [e] + rest) == if rule(m, e).None? then None else Accept(rule, rule(m, e).value, rest)
  {
    assert ([e] + rest)[1..] == rest;
  }

  lemma AcceptNone<M, E>(rule: Rule<M, E>, m: M)
    ensures Accept(rule, m, []) == Some(m)
  {
  }

  /** Every event of a legal trace was legal in some state. */
  lemma {:induction false} AcceptedEvent<M, E>(rule: Rule<M, E>, m: M, trace: seq<E>, i: nat)
    requires Accept(rule, m, trace).Some? && i < |trace|
    ensures exists s: M :: rule(s, trace[i]).Some?
    decreases i
  {
    if i > 0 {
      AcceptedEvent(rule, rule(m, trace[0]).value, trace[1..], i - 1);
    }
  }
}

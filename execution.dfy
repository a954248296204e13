/** How the two packages carry out a plan of filesystem actions. epify.go
    performs them one after another and returns at the first failure;
    media.go creates the season directory first and then starts every
    rename at once in an errgroup, whose Wait reports one of the failures.
    Which actions the operating system refuses is outside the program: it
    is the parameter `fails`. */
module Execution {
  import opened Common

  /** The actions that took effect, and the error returned (None for nil). */
  datatype Outcome = Outcome(performed: seq<Action>, err: Option<Error>)

  /** Performing `plan` in order and stopping at the first action that
      fails: the actions before it take effect and its failure is returned. */
  function Sequential(plan: seq<Action>, fails: set<Action>): (o: Outcome)
    ensures o.err.None? <==> forall k :: 0 <= k < |plan| ==> plan[k] !in fails
    ensures o.err.None? ==> o.performed == plan
    ensures o.err.Some? ==> |o.performed| < |plan| && plan[|o.performed|] in fails &&
                            o.err.value == ActionFailed(plan[|o.performed|])
    ensures |o.performed| <= |plan|
    ensures forall k :: 0 <= k < |o.performed| ==> o.performed[k] == plan[k] && plan[k] !in fails
  {
    var k := FirstNot(plan, a => a !in fails);
    if k == |plan| then Outcome(plan, None) else Outcome(plan[..k], Some(ActionFailed(plan[k])))
  }

  /** The actions of `plan` that do not fail, in plan order: what takes
      effect when every action is attempted whatever the others do. */
  function Succeeding(plan: seq<Action>, fails: set<Action>): (r: seq<Action>)
    ensures |r| <= |plan|
    ensures forall a :: a in r <==> a in plan && a !in fails
  {
    if plan == [] then []
    else
      var rest := Succeeding(plan[1..], fails);
      assert forall a :: a in plan <==> a == plan[0] || a in plan[1..];
      if plan[0] in fails then rest else [plan[0]] + rest
  }

  /** What the errgroup fan-out may produce: every action is attempted, the
      ones that do not fail take effect, and Wait returns nil exactly when
      none failed, otherwise the failure of one of them. Which one depends on
      scheduling, so the relation leaves it open. */
  predicate FanOut(plan: seq<Action>, fails: set<Action>, o: Outcome)
  {
    o.performed == Succeeding(plan, fails) &&
    (o.err.None? <==> forall k :: 0 <= k < |plan| ==> plan[k] !in fails) &&
    (o.err.Some? ==> exists k :: 0 <= k < |plan| && plan[k] in fails && o.err.value == ActionFailed(plan[k]))
  }

  /** When no action fails, every action takes effect. */
  lemma {:induction false} SucceedingAll(plan: seq<Action>, fails: set<Action>)
    requires forall k :: 0 <= k < |plan| ==> plan[k] !in fails
    ensures Succeeding(plan, fails) == plan
  {
    if plan != [] {
      assert plan[0] !in fails;
      SucceedingAll(plan[1..], fails);
    }
  }

  /** Whatever part of a plan the sequential loop gets through, the fan-out
      performs the same actions first: the sequential outcome is a prefix of
      the concurrent one. */
  lemma {:induction false} SucceedingExtendsPrefix(plan: seq<Action>, fails: set<Action>, k: nat)
    requires k <= |plan| && forall j :: 0 <= j < k ==> plan[j] !in fails
    ensures k <= |Succeeding(plan, fails)| && Succeeding(plan, fails)[..k] == plan[..k]
  {
    if k > 0 {
      assert plan[0] !in fails;
      SucceedingExtendsPrefix(plan[1..], fails, k - 1);
      assert plan[..k] == [plan[0]] + plan[1..][..k - 1];
    }
  }

  /** The two ways of carrying out a plan agree on whether it succeeds, both
      perform all of it when nothing fails, and what the sequential one
      performs is a prefix of what the fan-out performs. */
  lemma SequentialVersusFanOut(plan: seq<Action>, fails: set<Action>, o: Outcome)
    requires FanOut(plan, fails, o)
    ensures o.err.None? <==> Sequential(plan, fails).err.None?
    ensures o.err.None? ==> o.performed == Sequential(plan, fails).performed == plan
    ensures var s := Sequential(plan, fails).performed;
            |s| <= |o.performed| && o.performed[..|s|] == s
  {
    var s := Sequential(plan, fails).performed;
    SucceedingExtendsPrefix(plan, fails, |s|);
    assert s == plan[..|s|];
    if o.err.None? {
      SucceedingAll(plan, fails);
    }
  }

  /** Performing a first action and then the rest in order. */
  lemma SequentialCons(a: Action, rest: seq<Action>, fails: set<Action>)
    ensures var s := Sequential([a] + rest, fails);
            if a in fails then s == Outcome([], Some(ActionFailed(a)))
            else s == Outcome([a] + Sequential(rest, fails).performed, Sequential(rest, fails).err)
  {
    var plan := [a] + rest;
    assert plan[1..] == rest;
    var pred := (x: Action) => x !in fails;
    if a !in fails {
      var k := FirstNot(rest, pred);
      if k < |rest| {
        FirstNotIs(plan, pred, k + 1);
        assert plan[..k + 1] == [a] + rest[..k];
      } else {
        assert forall j :: 0 <= j < |plan| ==> pred(plan[j]);
      }
    }
  }

  /** Attempting one more action adds it to what takes effect unless it
      fails. */
  lemma {:induction false} SucceedingSnoc(plan: seq<Action>, a: Action, fails: set<Action>)
    ensures Succeeding(plan + [a], fails) == Succeeding(plan, fails) + (if a in fails then [] else [a])
  {
    if plan != [] {
      assert (plan + [a])[1..] == plan[1..] + [a];
      SucceedingSnoc(plan[1..], a, fails);
    }
  }

  /** media.go's MkSeason: the first action (creating the season directory)
      is performed on its own and a failure returns at once; otherwise the
      rest of the plan is fanned out. */
  predicate FanOutAfterFirst(plan: seq<Action>, fails: set<Action>, o: Outcome)
  {
    plan != [] &&
    (plan[0] in fails ==> o == Outcome([], Some(ActionFailed(plan[0])))) &&
    (plan[0] !in fails ==> o.performed != [] && o.performed[0] == plan[0] &&
                           FanOut(plan[1..], fails, Outcome(o.performed[1..], o.err)))
  }

  /** A successful sequential run stays successful when one more action
      that does not fail is appended. */
  lemma SequentialExtend(done: seq<Action>, a: Action, fails: set<Action>)
    requires Sequential(done, fails).err.None? && a !in fails
    ensures Sequential(done + [a], fails).err.None?
  {
    forall k | 0 <= k < |done + [a]| ensures (done + [a])[k] !in fails {
      if k < |done| {
        assert (done + [a])[k] == done[k];
      }
    }
  }

  /** A sequential run whose first i actions succeed stops at a failing
      i-th action, with the first i performed. */
  lemma SequentialStop(plan: seq<Action>, i: int, fails: set<Action>)
    requires 0 <= i < |plan| && plan[i] in fails && Sequential(plan[..i], fails).err.None?
    ensures Sequential(plan, fails) == Outcome(plan[..i], Some(ActionFailed(plan[i])))
  {
    assert forall j :: 0 <= j < i ==> plan[..i][j] == plan[j];
    FirstNotIs(plan, x => x !in fails, i);
  }

  /** The outcome after one more action is attempted in the fan-out: it
      takes effect unless it fails, and its failure is the one reported when
      none was reported before. */
  function Attempt(o: Outcome, a: Action, fails: set<Action>): Outcome
  {
    if a in fails then Outcome(o.performed, if o.err.None? then Some(ActionFailed(a)) else o.err)
    else Outcome(o.performed + [a], o.err)
  }

  /** Attempting one more action keeps the fan-out relation. */
  lemma FanOutSnoc(plan: seq<Action>, a: Action, fails: set<Action>, o: Outcome)
    requires FanOut(plan, fails, o)
    ensures FanOut(plan + [a], fails, Attempt(o, a, fails))
  {
    var p := plan + [a];
    SucceedingSnoc(plan, a, fails);
    assert forall k :: 0 <= k < |plan| ==> p[k] == plan[k];
    assert p[|plan|] == a;
    var o' := Attempt(o, a, fails);
    if o'.err.Some? {
      if o.err.Some? {
        var k :| 0 <= k < |plan| && plan[k] in fails && o.err.value == ActionFailed(plan[k]);
        assert p[k] == plan[k];
      } else {
        assert p[|plan|] in fails && o'.err.value == ActionFailed(p[|plan|]);
      }
    }
  }

  /** media.go's MkSeason against epify.go's on the same plan: they agree on
      whether it succeeds, and what the sequential one performs is a prefix
      of what the fan-out performs. */
  lemma SequentialVersusFanOutAfterFirst(plan: seq<Action>, fails: set<Action>, o: Outcome)
    requires FanOutAfterFirst(plan, fails, o)
    ensures o.err.None? <==> Sequential(plan, fails).err.None?
    ensures o.err.None? ==> o.performed == Sequential(plan, fails).performed == plan
    ensures var s := Sequential(plan, fails).performed;
            |s| <= |o.performed| && o.performed[..|s|] == s
  {
    var a, rest := plan[0], plan[1..];
    assert plan == [a] + rest;
    SequentialCons(a, rest, fails);
    if a !in fails {
      var fo := Outcome(o.performed[1..], o.err);
      var so := Sequential(rest, fails);
      SequentialVersusFanOut(rest, fails, fo);
      HeadTail(o.performed);
      assert Sequential(plan, fails) == Outcome([a] + so.performed, so.err);
      ConsPrefix(a, fo.performed, so.performed);
      if o.err.None? {
        assert o.performed == [a] + rest == plan;
      }
    }
  }

  /** A non-empty sequence is its first element followed by the rest. */
  lemma HeadTail(s: seq<Action>)
    requires s != []
    ensures s == [s[0]] + s[1..]
  {
  }

  /** A prefix stays a prefix when both sequences gain the same first
      element. */
  lemma ConsPrefix(a: Action, long: seq<Action>, short: seq<Action>)
    requires |short| <= |long| && long[..|short|] == short
    ensures ([a] + long)[..|[a] + short|] == [a] + short
  {
    assert ([a] + long)[..|short| + 1] == [a] + long[..|short|];
  }
}

/**
 Sequences of calls on either controller, from any reachable state.

 The dirty flag is a single flag per controller: only `validate` sets it and
 nothing clears it. A run stops at the first call whose update throws.
 */
module Lifecycle {
  import opened RuleModel
  import opened FormState
  import FormController
  import UserForm

  /** Which controller receives the calls: the `Form` class built by
      `use-form.ts`, or the standalone hook of `user-form.ts`. */
  datatype Variant = FormClass | StandaloneHook

  ghost predicate Wf(variant: Variant, rules: map<Key, RuleSpec>, s: State) {
    match variant
    case FormClass => FormController.Wf(rules, s)
    case StandaloneHook => UserForm.Wf(rules, s)
  }

  /** Change events come only from handlers, and handlers exist only for rule keys. */
  ghost predicate Handled(rules: map<Key, RuleSpec>, acts: seq<Action>) {
    forall i | 0 <= i < |acts| :: acts[i].Typed? ==> acts[i].key in rules
  }

  function Step(variant: Variant, rules: map<Key, RuleSpec>, s: State, a: Action): (r: Option<State>)
    requires Wf(variant, rules, s) && (a.Typed? ==> a.key in rules)
    ensures r.Some? ==> Wf(variant, rules, r.value)
    ensures r.Some? ==> (r.value.dirty <==> s.dirty || a.Submitted?)
  {
    match variant
    case FormClass => FormController.Step(rules, s, a)
    case StandaloneHook => UserForm.Step(rules, s, a)
  }

  /** A sequence of calls, stopping at the first one that throws. */
  function Run(variant: Variant, rules: map<Key, RuleSpec>, s: State, acts: seq<Action>): (r: Option<State>)
    requires Wf(variant, rules, s) && Handled(rules, acts)
    ensures r.Some? ==> Wf(variant, rules, r.value)
    ensures r.Some? && s.dirty ==> r.value.dirty
    decreases |acts|
  {
    if |acts| == 0 then Some(s)
    else
      match Step(variant, rules, s, acts[0])
      case None => None
      case Some(s1) =>
        assert forall i | 1 <= i < |acts| :: acts[1..][i - 1] == acts[i];
        Run(variant, rules, s1, acts[1..])
  }

  /** Both controllers start from a state satisfying their invariant. */
  lemma InitWf(variant: Variant, rules: map<Key, RuleSpec>)
    ensures Wf(variant, rules, Init(rules))
  {
    FormController.InitWf(rules);
    UserForm.InitWf(rules);
  }

  /** After a run the form is dirty exactly when it was dirty before or `validate`
      was among the calls: nothing else sets the flag and nothing resets it. */
  lemma {:induction false} DirtyIffValidated(variant: Variant, rules: map<Key, RuleSpec>, s: State, acts: seq<Action>)
    requires Wf(variant, rules, s) && Handled(rules, acts)
    requires Run(variant, rules, s, acts).Some?
    ensures Run(variant, rules, s, acts).value.dirty <==>
      s.dirty || exists i | 0 <= i < |acts| :: acts[i].Submitted?
    decreases |acts|
  {
    if |acts| > 0 {
      var s1 := Step(variant, rules, s, acts[0]).value;
      assert forall i | 1 <= i < |acts| :: acts[1..][i - 1] == acts[i];
      DirtyIffValidated(variant, rules, s1, acts[1..]);
      if exists i | 0 <= i < |acts| :: acts[i].Submitted? {
        var i :| 0 <= i < |acts| && acts[i].Submitted?;
        if i > 0 {
          assert acts[1..][i - 1].Submitted?;
        }
      }
    }
  }

  /** Before the first `validate`, typing and `setValues` never flag a field. */
  lemma {:induction false} PristineShowsNoErrors(variant: Variant, rules: map<Key, RuleSpec>, s: State, acts: seq<Action>)
    requires Wf(variant, rules, s) && Handled(rules, acts)
    requires !s.dirty && NoErrors(s.fields)
    requires forall i | 0 <= i < |acts| :: acts[i].Typed? || acts[i].ValuesSet?
    requires Run(variant, rules, s, acts).Some?
    ensures !Run(variant, rules, s, acts).value.dirty
    ensures NoErrors(Run(variant, rules, s, acts).value.fields)
    decreases |acts|
  {
    if |acts| > 0 {
      var s1 := Step(variant, rules, s, acts[0]).value;
      assert NoErrors(s1.fields);
      assert forall i | 1 <= i < |acts| :: acts[1..][i - 1] == acts[i];
      PristineShowsNoErrors(variant, rules, s1, acts[1..]);
    }
  }

  /** On the `Form` class every call keeps each field's flag in agreement with its
      message being truthy. (The standalone hook's `setErrors` breaks it; see
      `UserForm.SetErrorsPoliciesDiffer`.) */
  lemma {:induction false} ConsistencyKept(rules: map<Key, RuleSpec>, s: State, acts: seq<Action>)
    requires Wf(FormClass, rules, s) && Handled(rules, acts)
    requires Consistent(s.fields)
    requires Run(FormClass, rules, s, acts).Some?
    ensures Consistent(Run(FormClass, rules, s, acts).value.fields)
    decreases |acts|
  {
    if |acts| > 0 {
      var s1 := Step(FormClass, rules, s, acts[0]).value;
      assert Consistent(s1.fields);
      assert forall i | 1 <= i < |acts| :: acts[1..][i - 1] == acts[i];
      ConsistencyKept(rules, s1, acts[1..]);
    }
  }
}

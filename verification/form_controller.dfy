/**
 The `Form` class together with the `useForm` hook that builds it.

 The configuration maps each key to a rule that may be undefined. Keys with
 an undefined rule get a field at construction, but `validate` skips them
 (and drops them from the committed field map) and their change handler
 does nothing. `setErrors` clears the error on a falsy message.
 */
module FormController {
  import opened RuleModel
  import opened Validator
  import opened FormState

  /** The keys whose rule is defined. */
  function DefinedKeys(rules: map<Key, RuleSpec>): set<Key> {
    set k | k in rules && !rules[k].Absent?
  }

  /** What every reachable state satisfies: every key with a defined rule has a
      field, every field belongs to a rule key, and handlers are bound to their keys. */
  ghost predicate Wf(rules: map<Key, RuleSpec>, s: State) {
    && DefinedKeys(rules) <= s.fields.Keys <= rules.Keys
    && BoundHandlers(s.fields)
  }

  /** The state `useForm` starts from satisfies the invariant. */
  lemma InitWf(rules: map<Key, RuleSpec>)
    ensures Wf(rules, Init(rules))
    ensures Init(rules).fields.Keys == rules.Keys
  {
  }

  /** The value a field's `onChange` forwards: the event target's value when the
      payload has a target, otherwise the payload itself. */
  function Resolve(p: Payload): string {
    match p
    case InputEvent(v) => v
    case RawValue(v) => v
  }

  /** The change handler registered by `useForm` for `key`. */
  function HandleChange(rules: map<Key, RuleSpec>, s: State, key: Key, v: string): (r: State)
    requires Wf(rules, s) && key in rules
    ensures Wf(rules, r) && r.dirty == s.dirty && r.fields.Keys == s.fields.Keys
    ensures rules[key].Absent? ==> r == s
    ensures forall k | k in s.fields && k != key :: r.fields[k] == s.fields[k]
    ensures !rules[key].Absent? ==> r.fields[key].value == v
    ensures !rules[key].Absent? && !s.dirty ==>
      r.fields[key].error == s.fields[key].error && r.fields[key].helperText == s.fields[key].helperText
    ensures !rules[key].Absent? && s.dirty ==>
      (r.fields[key].error <==> Truthy(IsInvalid(rules[key], v)))
    ensures !rules[key].Absent? && s.dirty ==> Shows(r.fields[key], IsInvalid(rules[key], v))
    ensures !rules[key].Absent? && s.dirty ==>
      r.fields[key] == ValidateField(s.fields[key], rules[key], v)
  {
    if rules[key].Absent? then s else Route(s, key, rules[key], v)
  }

  /** A field's `onChange`, for either form of payload. */
  function OnChange(rules: map<Key, RuleSpec>, s: State, key: Key, p: Payload): (r: State)
    requires Wf(rules, s) && key in rules
    ensures p.InputEvent? ==> r == HandleChange(rules, s, key, p.targetValue)
    ensures p.RawValue? ==> r == HandleChange(rules, s, key, p.raw)
  {
    HandleChange(rules, s, key, Resolve(p))
  }

  /** Widget-style and value-style callers reach the same state. */
  lemma PayloadFormsAgree(rules: map<Key, RuleSpec>, s: State, key: Key, v: string)
    requires Wf(rules, s) && key in rules
    ensures OnChange(rules, s, key, InputEvent(v)) == OnChange(rules, s, key, RawValue(v))
  {
  }

  /** `Form.validate`: mark dirty, validate every key with a defined rule against its
      current value, commit exactly those fields, and return their values or null. */
  function Validate(rules: map<Key, RuleSpec>, s: State): (o: Outcome)
    requires Wf(rules, s)
    ensures Wf(rules, o.state) && o.state.dirty
    ensures o.state.fields.Keys == DefinedKeys(rules)
    ensures forall k | k in o.state.fields :: o.state.fields[k].value == s.fields[k].value
    ensures forall k | k in o.state.fields ::
      o.state.fields[k].error <==> Truthy(IsInvalid(rules[k], s.fields[k].value))
    ensures forall k | k in o.state.fields ::
      Shows(o.state.fields[k], IsInvalid(rules[k], s.fields[k].value))
    ensures forall k | k in o.state.fields ::
      o.state.fields[k] == ValidateField(s.fields[k], rules[k], s.fields[k].value)
    ensures Consistent(o.state.fields)
    ensures o.values.None? <==> exists k | k in o.state.fields :: o.state.fields[k].error
    ensures o.values.None? <==>
      exists k | k in DefinedKeys(rules) :: Truthy(IsInvalid(rules[k], s.fields[k].value))
    ensures o.values.Some? ==> o.values.value.Keys == DefinedKeys(rules)
    ensures o.values.Some? ==> forall k | k in o.values.value :: o.values.value[k] == s.fields[k].value
  {
    ValidateOver(DefinedKeys(rules), rules, s)
  }

  /** Calling `validate` twice with nothing in between gives the same state and result. */
  lemma ValidateIdempotent(rules: map<Key, RuleSpec>, s: State)
    requires Wf(rules, s)
    ensures Validate(rules, Validate(rules, s).state) == Validate(rules, s)
  {
    ValidateOverIdempotent(DefinedKeys(rules), rules, s);
  }

  /** `Form.setErrors`: a truthy message flags the field, a falsy one clears the flag. */
  function SetErrors(s: State, errors: map<Key, Option<string>>): (r: Option<State>)
    ensures r.None? <==> !(errors.Keys <= s.fields.Keys)
    ensures r.Some? ==> r.value.dirty == s.dirty && r.value.fields.Keys == s.fields.Keys
    ensures r.Some? ==> forall k | k in errors ::
      && (r.value.fields[k].error <==> Truthy(errors[k]))
      && r.value.fields[k].helperText == errors[k]
      && r.value.fields[k].value == s.fields[k].value
    ensures r.Some? ==> forall k | k in s.fields && k !in errors :: r.value.fields[k] == s.fields[k]
    ensures r.Some? && Consistent(s.fields) ==> Consistent(r.value.fields)
  {
    FormState.SetErrors(s, errors, ClearOnFalsy)
  }

  /** One call on the form. `None` when the call's state update throws. */
  function Step(rules: map<Key, RuleSpec>, s: State, a: Action): (r: Option<State>)
    requires Wf(rules, s) && (a.Typed? ==> a.key in rules)
    ensures r.Some? ==> Wf(rules, r.value)
    ensures r.Some? ==> (r.value.dirty <==> s.dirty || a.Submitted?)
    ensures r.None? ==> a.ValuesSet? || a.ErrorsSet?
  {
    match a
    case Typed(key, p) => Some(OnChange(rules, s, key, p))
    case Submitted => Some(Validate(rules, s).state)
    case ValuesSet(values) => FormState.SetValues(s, values)
    case ErrorsSet(errors) => SetErrors(s, errors)
  }

  /** Typing an invalid value shows no error before `validate`, and shows it at once after. */
  lemma DirtyGating(rules: map<Key, RuleSpec>, key: Key, v: string)
    requires key in rules && !rules[key].Absent?
    requires Truthy(IsInvalid(rules[key], v))
    ensures !HandleChange(rules, Init(rules), key, v).fields[key].error
    ensures HandleChange(rules, Validate(rules, Init(rules)).state, key, v).fields[key].error
  {
    InitWf(rules);
  }
}

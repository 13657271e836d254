/**
 The standalone `useForm` hook of `user-form.ts`.

 Its matcher, rule walker and `validateField` are the same code as the
 validator module's (modelled once, in `Validator`). Its controller differs
 from `Form`: every rule key is validated, including one whose rule is
 undefined (which then always passes); the change handler does not look at
 the rule before routing; `onChange` only accepts event payloads; and
 `setErrors` flags the field whatever the message.
 */
module UserForm {
  import opened RuleModel
  import opened Validator
  import opened FormState
  import FormController

  /** Every rule key has a field, every field a rule key, and handlers are bound. */
  ghost predicate Wf(rules: map<Key, RuleSpec>, s: State) {
    s.fields.Keys == rules.Keys && BoundHandlers(s.fields)
  }

  lemma InitWf(rules: map<Key, RuleSpec>)
    ensures Wf(rules, Init(rules))
  {
  }

  /** `onChange` reads `e.target.value`; a raw value has no target, so reading it throws. */
  function Resolve(p: Payload): (v: Option<string>)
    ensures v.Some? <==> p.InputEvent?
    ensures p.InputEvent? ==> v == Some(p.targetValue)
  {
    match p
    case InputEvent(t) => Some(t)
    case RawValue(_) => None
  }

  /** The change handler: re-validate when dirty, otherwise store the value only.
      An undefined rule is routed like any other and always passes. */
  function HandleChange(rules: map<Key, RuleSpec>, s: State, key: Key, v: string): (r: State)
    requires Wf(rules, s) && key in rules
    ensures Wf(rules, r) && r.dirty == s.dirty
    ensures forall k | k in s.fields && k != key :: r.fields[k] == s.fields[k]
    ensures r.fields[key].value == v
    ensures !s.dirty ==>
      r.fields[key].error == s.fields[key].error && r.fields[key].helperText == s.fields[key].helperText
    ensures s.dirty ==> (r.fields[key].error <==> Truthy(IsInvalid(rules[key], v)))
    ensures s.dirty ==> Shows(r.fields[key], IsInvalid(rules[key], v))
    ensures s.dirty ==> r.fields[key] == ValidateField(s.fields[key], rules[key], v)
    ensures s.dirty && rules[key].Absent? ==> !r.fields[key].error && r.fields[key].helperText == None
  {
    Route(s, key, rules[key], v)
  }

  /** A field's `onChange`; `None` when the payload is a raw value. */
  function OnChange(rules: map<Key, RuleSpec>, s: State, key: Key, p: Payload): (r: Option<State>)
    requires Wf(rules, s) && key in rules
    ensures p.RawValue? ==> r.None?
    ensures p.InputEvent? ==> r == Some(HandleChange(rules, s, key, p.targetValue))
  {
    match Resolve(p)
    case None => None
    case Some(v) => Some(HandleChange(rules, s, key, v))
  }

  /** The exposed `validate`: mark dirty, then validate every rule key against its
      current value and return all values, or null when some field fails. */
  function Validate(rules: map<Key, RuleSpec>, s: State): (o: Outcome)
    requires Wf(rules, s)
    ensures Wf(rules, o.state) && o.state.dirty
    ensures forall k | k in o.state.fields :: o.state.fields[k].value == s.fields[k].value
    ensures forall k | k in o.state.fields ::
      o.state.fields[k].error <==> Truthy(IsInvalid(rules[k], s.fields[k].value))
    ensures forall k | k in o.state.fields ::
      Shows(o.state.fields[k], IsInvalid(rules[k], s.fields[k].value))
    ensures forall k | k in o.state.fields ::
      o.state.fields[k] == ValidateField(s.fields[k], rules[k], s.fields[k].value)
    ensures Consistent(o.state.fields)
    ensures o.values.None? <==> exists k | k in o.state.fields :: o.state.fields[k].error
    ensures o.values.None? <==> exists k | k in rules :: Truthy(IsInvalid(rules[k], s.fields[k].value))
    ensures o.values.Some? ==> o.values.value.Keys == rules.Keys
    ensures o.values.Some? ==> forall k | k in rules :: o.values.value[k] == s.fields[k].value
  {
    ValidateOver(rules.Keys, rules, s)
  }

  lemma ValidateIdempotent(rules: map<Key, RuleSpec>, s: State)
    requires Wf(rules, s)
    ensures Validate(rules, Validate(rules, s).state) == Validate(rules, s)
  {
    ValidateOverIdempotent(rules.Keys, rules, s);
  }

  /** `setErrors`: flag every given key and show its message, even a falsy one. */
  function SetErrors(s: State, errors: map<Key, Option<string>>): (r: Option<State>)
    ensures r.None? <==> !(errors.Keys <= s.fields.Keys)
    ensures r.Some? ==> r.value.dirty == s.dirty && r.value.fields.Keys == s.fields.Keys
    ensures r.Some? ==> forall k | k in errors ::
      && r.value.fields[k].error
      && r.value.fields[k].helperText == errors[k]
      && r.value.fields[k].value == s.fields[k].value
    ensures r.Some? ==> forall k | k in s.fields && k !in errors :: r.value.fields[k] == s.fields[k]
  {
    FormState.SetErrors(s, errors, AlwaysSet)
  }

  /** One call on the hook. `None` when the call throws. */
  function Step(rules: map<Key, RuleSpec>, s: State, a: Action): (r: Option<State>)
    requires Wf(rules, s) && (a.Typed? ==> a.key in rules)
    ensures r.Some? ==> Wf(rules, r.value)
    ensures r.Some? ==> (r.value.dirty <==> s.dirty || a.Submitted?)
    ensures r.None? ==> (a.Typed? && a.payload.RawValue?) || a.ValuesSet? || a.ErrorsSet?
  {
    match a
    case Typed(key, p) => OnChange(rules, s, key, p)
    case Submitted => Some(Validate(rules, s).state)
    case ValuesSet(values) => FormState.SetValues(s, values)
    case ErrorsSet(errors) => SetErrors(s, errors)
  }

  /** The two controllers disagree on `setErrors` with an empty message: `Form`
      clears the flag, this hook sets it, leaving a flagged field with no message. */
  lemma SetErrorsPoliciesDiffer(s: State, k: Key)
    requires k in s.fields
    ensures !FormController.SetErrors(s, map[k := Some("")]).value.fields[k].error
    ensures SetErrors(s, map[k := Some("")]).value.fields[k].error
    ensures !Consistent(SetErrors(s, map[k := Some("")]).value.fields)
  {
    var r := SetErrors(s, map[k := Some("")]).value;
    assert r.fields[k].error && !Truthy(r.fields[k].helperText);
  }

  /** A raw-value payload is forwarded by `Form`'s hook but throws here. */
  lemma RawPayloadDiffers(rules: map<Key, RuleSpec>, s: State, key: Key, v: string)
    requires Wf(rules, s) && FormController.Wf(rules, s) && key in rules
    ensures OnChange(rules, s, key, RawValue(v)).None?
    ensures FormController.OnChange(rules, s, key, RawValue(v))
         == FormController.OnChange(rules, s, key, InputEvent(v))
  {
  }

  /** With an undefined rule, after `validate` a change here stores the value and clears
      the flag, while `Form`'s hook ignores the change. */
  lemma UndefinedRuleDiffers(rules: map<Key, RuleSpec>, s: State, key: Key, v: string)
    requires Wf(rules, s) && FormController.Wf(rules, s) && key in rules
    requires rules[key].Absent? && s.dirty
    ensures FormController.HandleChange(rules, s, key, v) == s
    ensures HandleChange(rules, s, key, v).fields[key] == Field(v, false, None, s.fields[key].onChange)
  {
  }

  /** `validate` keeps a key with an undefined rule here and reports its value;
      `Form.validate` drops the key from both the fields and the values. */
  lemma UndefinedRuleValidateDiffers(rules: map<Key, RuleSpec>, s: State, key: Key)
    requires Wf(rules, s) && FormController.Wf(rules, s) && key in rules && rules[key].Absent?
    ensures key in Validate(rules, s).state.fields
    ensures !Validate(rules, s).state.fields[key].error
    ensures key !in FormController.Validate(rules, s).state.fields
    ensures Validate(rules, s).values.Some? ==> key in Validate(rules, s).values.value
    ensures FormController.Validate(rules, s).values.Some? ==>
      key !in FormController.Validate(rules, s).values.value
  {
  }
}

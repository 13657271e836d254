/**
 Controller state and the field-map updates that both controllers share.

 The state is the field map held by the host's state cell together with the
 controller-wide dirty flag. Every operation is a pure transition on it;
 where the state updater of `setValues` or `setErrors` (src/form.ts,
 src/user-form.ts) would throw, because it writes through a field that is
 not in the map, the result is `None`.
 */
module FormState {
  import opened RuleModel
  import opened Validator

  datatype State = State(fields: map<Key, Field>, dirty: bool)

  /** What `validate` leaves behind and returns: the committed state and
      either the values map or null. */
  datatype Outcome = Outcome(state: State, values: Option<map<Key, string>>)

  /** The calls a form can receive: a widget's change event, `validate()`,
      `setValues(values)` and `setErrors(errors)`. */
  datatype Action =
    | Typed(key: Key, payload: Payload)
    | Submitted
    | ValuesSet(values: map<Key, string>)
    | ErrorsSet(errors: map<Key, Option<string>>)

  /** What `setErrors` writes into `error` for a message. */
  datatype ErrorPolicy =
    | ClearOnFalsy  // error = Boolean(message)
    | AlwaysSet     // error = true

  /** Every field's change handler is bound to the field's own key. */
  ghost predicate BoundHandlers(fields: map<Key, Field>) {
    forall k | k in fields :: fields[k].onChange == Handler(k)
  }

  /** The displayed error flag agrees with the displayed message. */
  ghost predicate Consistent(fields: map<Key, Field>) {
    forall k | k in fields :: fields[k].error <==> Truthy(fields[k].helperText)
  }

  ghost predicate NoErrors(fields: map<Key, Field>) {
    forall k | k in fields :: !fields[k].error
  }

  /** `getDefaultState`: one pristine field per own rule key, with an empty value. */
  function Init(rules: map<Key, RuleSpec>): (s: State)
    ensures s.fields.Keys == rules.Keys
    ensures !s.dirty
    ensures BoundHandlers(s.fields)
    ensures NoErrors(s.fields) && Consistent(s.fields)
    ensures forall k | k in s.fields :: s.fields[k].value == "" && s.fields[k].helperText == None
  {
    State(map k | k in rules :: Field("", false, None, Handler(k)), false)
  }

  /** `validate` over the given keys: mark dirty, validate every such field against its
      own current value, commit exactly those fields, and return their values unless
      one of them failed. */
  function ValidateOver(keys: set<Key>, rules: map<Key, RuleSpec>, s: State): (o: Outcome)
    requires keys <= rules.Keys && keys <= s.fields.Keys
    ensures o.state.dirty
    ensures o.state.fields.Keys == keys
    ensures forall k | k in keys ::
      && o.state.fields[k].value == s.fields[k].value
      && o.state.fields[k].onChange == s.fields[k].onChange
      && (o.state.fields[k].error <==> Truthy(IsInvalid(rules[k], s.fields[k].value)))
    ensures forall k | k in keys :: Shows(o.state.fields[k], IsInvalid(rules[k], s.fields[k].value))
    ensures forall k | k in keys ::
      o.state.fields[k] == ValidateField(s.fields[k], rules[k], s.fields[k].value)
    ensures Consistent(o.state.fields)
    ensures o.values.None? <==> exists k | k in keys :: Truthy(IsInvalid(rules[k], s.fields[k].value))
    ensures o.values.Some? ==> o.values.value.Keys == keys
    ensures o.values.Some? ==> forall k | k in keys :: o.values.value[k] == s.fields[k].value
  {
    var newFields := map k | k in keys :: ValidateField(s.fields[k], rules[k], s.fields[k].value);
    var hasError := exists k | k in keys :: newFields[k].error;
    Outcome(State(newFields, true), if hasError then None else Some(map k | k in keys :: newFields[k].value))
  }

  /** The loop of `Form.validate` (src/form.ts): visit the keys one at a time, collecting new fields, values
      and the error flag. The visiting order does not affect the outcome. */
  method ValidateLoop(keys: set<Key>, rules: map<Key, RuleSpec>, s: State) returns (o: Outcome)
    requires keys <= rules.Keys && keys <= s.fields.Keys
    ensures o == ValidateOver(keys, rules, s)
  {
    var hasError := false;
    var values: map<Key, string> := map[];
    var newFields: map<Key, Field> := map[];
    var todo := keys;
    while todo != {}
      invariant todo <= keys
      invariant newFields.Keys == values.Keys == keys - todo
      invariant forall k | k in newFields ::
          newFields[k] == ValidateField(s.fields[k], rules[k], s.fields[k].value)
      invariant forall k | k in values :: values[k] == newFields[k].value
      invariant hasError <==> exists k | k in newFields :: newFields[k].error
      decreases todo
    {
      var key :| key in todo;
      var f := ValidateField(s.fields[key], rules[key], s.fields[key].value);
      newFields := newFields[key := f];
      if f.error {
        hasError := true;
      }
      values := values[key := f.value];
      todo := todo - {key};
    }
    var spec := ValidateOver(keys, rules, s);
    assert newFields == spec.state.fields;
    assert !hasError ==> values == spec.values.value;
    o := Outcome(State(newFields, true), if hasError then None else Some(values));
  }

  /** Validating twice in a row gives the same fields and the same result. */
  lemma ValidateOverIdempotent(keys: set<Key>, rules: map<Key, RuleSpec>, s: State)
    requires keys <= rules.Keys && keys <= s.fields.Keys
    ensures ValidateOver(keys, rules, ValidateOver(keys, rules, s).state) == ValidateOver(keys, rules, s)
  {
    var first := ValidateOver(keys, rules, s);
    var second := ValidateOver(keys, rules, first.state);
    forall k | k in keys
      ensures second.state.fields[k] == first.state.fields[k]
    {
      ValidateFieldIdempotent(s.fields[k], rules[k], s.fields[k].value);
    }
    assert second.state.fields == first.state.fields;
  }

  /** `setValues`: overwrite `value` of the given keys, nothing else. A key with no
      field makes the update throw. */
  function SetValues(s: State, values: map<Key, string>): (r: Option<State>)
    ensures r.None? <==> !(values.Keys <= s.fields.Keys)
    ensures r.Some? ==> r.value.dirty == s.dirty && r.value.fields.Keys == s.fields.Keys
    ensures r.Some? ==> forall k | k in s.fields ::
      && r.value.fields[k].value == (if k in values then values[k] else s.fields[k].value)
      && r.value.fields[k].error == s.fields[k].error
      && r.value.fields[k].helperText == s.fields[k].helperText
      && r.value.fields[k].onChange == s.fields[k].onChange
  {
    if !(values.Keys <= s.fields.Keys) then None
    else
      Some(State(map k | k in s.fields ::
        if k in values then s.fields[k].(value := values[k]) else s.fields[k], s.dirty))
  }

  /** `setErrors`: set `helperText` of the given keys to their message and `error`
      by the policy; values are untouched. A key with no field makes the update throw. */
  function SetErrors(s: State, errors: map<Key, Option<string>>, policy: ErrorPolicy): (r: Option<State>)
    ensures r.None? <==> !(errors.Keys <= s.fields.Keys)
    ensures r.Some? ==> r.value.dirty == s.dirty && r.value.fields.Keys == s.fields.Keys
    ensures r.Some? ==> forall k | k in s.fields ::
      && r.value.fields[k].value == s.fields[k].value
      && r.value.fields[k].onChange == s.fields[k].onChange
      && (k !in errors ==> r.value.fields[k] == s.fields[k])
      && (k in errors ==> r.value.fields[k].helperText == errors[k])
      && (k in errors && policy.AlwaysSet? ==> r.value.fields[k].error)
      && (k in errors && policy.ClearOnFalsy? ==> (r.value.fields[k].error <==> Truthy(errors[k])))
  {
    if !(errors.Keys <= s.fields.Keys) then None
    else
      Some(State(map k | k in s.fields ::
        if k in errors then
          s.fields[k].(error := (policy.AlwaysSet? || Truthy(errors[k])), helperText := errors[k])
        else s.fields[k], s.dirty))
  }

  /** The dirty-gated change handler for a key with a field: before the first
      `validate` only the value changes; afterwards the field is re-validated. */
  function Route(s: State, key: Key, spec: RuleSpec, v: string): (r: State)
    requires key in s.fields
    ensures r.dirty == s.dirty && r.fields.Keys == s.fields.Keys
    ensures forall k | k in s.fields && k != key :: r.fields[k] == s.fields[k]
    ensures r.fields[key].value == v
    ensures r.fields[key].onChange == s.fields[key].onChange
    ensures !s.dirty ==> r.fields[key].error == s.fields[key].error
    ensures !s.dirty ==> r.fields[key].helperText == s.fields[key].helperText
    ensures s.dirty ==> (r.fields[key].error <==> Truthy(IsInvalid(spec, v)))
    ensures s.dirty ==> (r.fields[key].error <==> Truthy(r.fields[key].helperText))
    ensures s.dirty ==> Shows(r.fields[key], IsInvalid(spec, v))
    ensures s.dirty ==> r.fields[key] == ValidateField(s.fields[key], spec, v)
  {
    var f := s.fields[key];
    State(s.fields[key := if s.dirty then ValidateField(f, spec, v) else f.(value := v)], s.dirty)
  }
}

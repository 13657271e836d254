# react-form validation core, in Dafny

This project models the rule-evaluation engine and the field-state transitions
of the `react-form` library: the matcher that decides whether one pattern
accepts a value, the walker that finds the first failing rule, the
`validateField` step that turns its verdict into a field record, and the two
form controllers built on them. These are the `Form` class with its `useForm`
hook (`src/form.ts`, `src/use-form.ts`) and the standalone hook of
`src/user-form.ts`.

Modules, following the source:

- `RuleModel` (`rule_model.dfy`): patterns (`"required"`, `"email"`, a
  regular expression), rules with one shared optional message, rule
  configurations (undefined, one rule, a list of rules), field records and
  change payloads. `Truthy` is JavaScript truthiness of a `string | undefined`.
- `Email` (`email.dfy`): the fixed pattern `^[a-zA-Z0-9+_.-]+@[a-zA-Z0-9.-]+$`
  as a character automaton (`Matches`), and an independent description
  (`Shape`: local part, exactly one '@', domain), proved to accept the same
  values.
- `Validator` (`validator.dfy`): `test`, `isInvalid` and `validateField` of
  `src/validator.ts`. The same three functions appear again, with identical
  code, at `src/user-form.ts` lines 45-83 and 111-129; they are modelled once.
- `FormState` (`form_state.dfy`): the controller state (field map plus the
  dirty flag) and the updates both controllers share: initial state,
  validation over a set of keys (as a declarative function and as the
  key-by-key loop of `Form.validate`), `setValues`, `setErrors` with its error policy as a
  parameter, and the dirty-gated change routing. `setValues` is the same code
  in both controllers (`src/form.ts` lines 43-55, `src/user-form.ts` lines
  151-161).
- `FormController` (`form_controller.dfy`): the `Form` variant. Keys whose
  rule is undefined are skipped by `validate` and dropped from the committed
  field map, and their change handler does nothing. `onChange` accepts an
  event or a raw value. `setErrors` sets `error = Boolean(message)`.
- `UserForm` (`user_form.dfy`): the `user-form.ts` variant. It validates every
  rule key, routes every change, accepts only event payloads and always sets
  `error = true` in `setErrors`. Lemmas here state where the two variants
  differ.
- `Lifecycle` (`lifecycle.dfy`): sequences of calls on either controller,
  and what holds along them: the invariant, the dirty flag, pristine fields.
- `Scenarios` (`scenarios.dfy`): a two-field form worked through `validate`,
  `setValues` and `setErrors`.

Every operation is a pure function of the rules, the current state and the
input. A call that throws in the library yields `None`: a state update that
writes through a key with no field, or the standalone hook's `onChange`
reading `e.target.value` of a raw value (which throws before any state
update). A run of calls stops at the first such call.

The pattern at `src/validator.ts` line 52 is anchored at both ends and
neither of its character classes contains '@', so every accepted non-empty
value has exactly one '@' (`Email.ShapeHasOneAt`, `Email.ExampleTwoAts`).

## Model

| member | source | states |
|---|---|---|
| Validator.Test | src/validator.ts:49-58 | "required" accepts exactly the non-empty values. "email" accepts the empty value and exactly the values of the reference shape (local part, one '@', domain). A regular expression accepts what its predicate accepts. |
| Validator.TestsError | src/validator.ts:34-41 | Over a list of patterns, the result is no error when every pattern accepts. Otherwise it is the rule's one message, whichever pattern rejected. |
| Validator.RuleError | src/validator.ts:34-47 | A rule without a test never fails. A single pattern behaves as a one-element list. The result is the rule's message exactly when some pattern rejects. |
| Validator.ListError | src/validator.ts:24-31 | A list of rules yields no error or a truthy message. It yields no error exactly when no rule reports a truthy message. Otherwise it yields the message of the first such rule in declaration order, so missing or empty messages are skipped. |
| Validator.IsInvalid | src/validator.ts:20-47 | An absent rule yields no error for any value. A single rule agrees with a one-element list up to falsy results: a truthy error is exactly the list's error. |
| Validator.ValidateField | src/validator.ts:4-18 | The new value is always stored and the change handler kept. The error flag is set exactly when the rules report a truthy message, and the message is then shown. Otherwise no message is shown. The flag always agrees with the message. |
| Validator.ListErrorAppend | src/validator.ts:24-31 | The list of rules `a + b` gives the error of `a` when `a` has one, and the error of `b` otherwise. |
| Validator.ShortCircuit | src/validator.ts:25-29 | Once a prefix of the list fails, the rules after it cannot change the result. |
| Validator.ValidateFieldIdempotent | src/validator.ts:4-18 | Validating an already validated field against the same value gives the same field. |
| Validator.MatcherExamples | src/validator.ts:51-54 | `""` fails "required" and `"x"` passes it. `""` and `"a@b"` pass "email" and `"not-an-email"` fails it. |
| Email.MatchesIffShape | src/validator.ts:52 | The anchored pattern accepts a value exactly when the value is a non-empty local-class run, then '@', then a non-empty domain-class run. |
| Email.ShapeHasOneAt | src/validator.ts:52 | An accepted value contains an '@', and it contains only one. |
| Email.ExampleAccepts | src/validator.ts:52 | `"a@b"` is accepted: no dot is needed after the '@'. |
| Email.ExampleNoAt | src/validator.ts:52 | `"not-an-email"` is rejected. |
| Email.ExampleTwoAts | src/validator.ts:52 | `"a@b@c"` is rejected. |
| Email.ExampleEmptyParts | src/validator.ts:52 | An empty local part or an empty domain is rejected. |
| FormState.Init | src/use-form.ts:5-20 | There is exactly one field per own rule key. Each has value `""`, no error, no message and a handler bound to its own key. The form starts not dirty. |
| FormState.ValidateOver | src/form.ts:70-94 | The form becomes dirty and exactly the given keys are committed. Each becomes `validateField` of its field, rule and own value: it keeps its value and handler, is flagged exactly when that value fails, and then shows the failing rule's message, otherwise no message. The result is null exactly when some of those values fails, and otherwise maps each key to its unchanged value. |
| FormState.ValidateLoop | src/form.ts:72-93 | The key-by-key loop collecting new fields, values and an error flag gives the same outcome as the declarative validation, whatever the visiting order. |
| FormState.ValidateOverIdempotent | src/form.ts:70-94 | Validating twice with nothing in between gives the same fields and the same result. |
| FormState.SetValues | src/form.ts:43-55 | Only `value` changes, and only for the given keys. Error, message, handler and the dirty flag are untouched. A key with no field makes the update fail. |
| FormState.SetErrors | src/form.ts:56-68 | Only the given keys change: the message is set, and the flag is set by the policy (`Boolean(message)` or always true). Values, handlers and the dirty flag are untouched. A key with no field makes the update fail. |
| FormState.Route | src/use-form.ts:30-40 | A change affects only its own key and always stores the new value. Before the first `validate`, error and message are kept. Afterwards the field becomes `validateField` of the field, rule and new value: flagged exactly when the new value fails, showing the rule's message then and none otherwise. |
| FormController.InitWf | src/use-form.ts:5-20 | The initial state has a field for every rule key and satisfies the controller invariant. |
| FormController.HandleChange | src/use-form.ts:25-41 | A change on a key with an undefined rule leaves the state unchanged. Otherwise it changes only that key: value only while not dirty; once dirty the field becomes `validateField` of the new value, flagged exactly when it fails and showing the rule's message then. The dirty flag is only read. |
| FormController.OnChange | src/use-form.ts:13-15 | The handler forwards the target's value for an event and the payload itself for a raw value. |
| FormController.PayloadFormsAgree | src/use-form.ts:14 | An event and a raw value carrying the same text lead to the same state. |
| FormController.Validate | src/form.ts:70-94 | The form becomes dirty. Keys with an undefined rule are absent from both the committed fields and the returned values. Values never change. Each committed field is `validateField` of its own value: flagged exactly when it fails, showing the rule's message then and none otherwise, so flag and message agree. The result is null exactly when some validated field is flagged. |
| FormController.ValidateIdempotent | src/form.ts:70-94 | A second `validate` right after the first gives the same state and the same return value. |
| FormController.SetErrors | src/form.ts:56-68 | A truthy message flags the field and a falsy one clears the flag. The message is stored and the value untouched. Agreement between flag and message is preserved. |
| FormController.Step | src/use-form.ts:22-43 | Each call keeps the controller invariant. The form is dirty afterwards exactly when it was before or the call was `validate`. Only `setValues` and `setErrors` can fail. |
| FormController.DirtyGating | src/use-form.ts:30-40 | Typing an invalid value into a fresh form shows no error. After one `validate`, the same typing shows the error at once. |
| Lifecycle.Step | src/use-form.ts:22-43 | One call on either controller keeps that controller's invariant. The form is dirty afterwards exactly when it was before or the call was `validate`. |
| Lifecycle.Run | src/use-form.ts:22-43 | A sequence of calls on either controller keeps the invariant and never resets the dirty flag. |
| Lifecycle.InitWf | src/user-form.ts:28-43 | The initial state satisfies the invariant of either controller. |
| Lifecycle.DirtyIffValidated | src/form.ts:70-71 | After any sequence of calls on either controller, the form is dirty exactly when it was dirty before or `validate` was among the calls. The standalone hook sets the flag the same way (src/user-form.ts line 174). |
| Lifecycle.PristineShowsNoErrors | src/use-form.ts:35-40 | Before the first `validate`, typing and `setValues` never flag a field, on either controller. |
| Lifecycle.ConsistencyKept | src/form.ts:63-64 | On the `Form` class, every call keeps each field's flag in agreement with its message being truthy. |
| UserForm.InitWf | src/user-form.ts:28-43 | The initial state has one field per rule key and satisfies this variant's invariant. |
| UserForm.Resolve | src/user-form.ts:36-38 | Only an event payload yields a value; a raw value has no target, so reading it throws. |
| UserForm.HandleChange | src/user-form.ts:133-145 | Only the changed key is affected and the new value is always stored. While not dirty, error and message are kept. Once dirty, the field becomes `validateField` of the new value: flagged exactly when it fails and showing the rule's message then, so an undefined rule clears flag and message. |
| UserForm.OnChange | src/user-form.ts:36-38 | A raw-value payload fails. An event payload is routed with its target's value. |
| UserForm.Validate | src/user-form.ts:85-109 | The form becomes dirty and every rule key is validated against its own unchanged value: each field is `validateField` of it, flagged exactly when it fails and showing the rule's message then, none otherwise. The result is null exactly when some field fails. Otherwise it holds the value of every rule key. |
| UserForm.ValidateIdempotent | src/user-form.ts:85-109 | A second `validate` right after the first gives the same state and return value. |
| UserForm.SetErrors | src/user-form.ts:163-171 | Every given key is flagged, even with a falsy message, and shows that message. Values and other keys are untouched. |
| UserForm.Step | src/user-form.ts:131-177 | Each call keeps the invariant. The form is dirty afterwards exactly when it was before or the call was `validate`. |
| UserForm.SetErrorsPoliciesDiffer | src/user-form.ts:167 | With an empty message, `Form.setErrors` clears the flag. This variant sets it, leaving a flagged field whose message is not truthy. |
| UserForm.RawPayloadDiffers | src/user-form.ts:37 | A raw value fails here, while `Form`'s hook treats it like an event carrying the same text. |
| UserForm.UndefinedRuleDiffers | src/user-form.ts:137 | On a dirty form, a change on a key with an undefined rule stores the value and clears the flag here. `Form`'s hook ignores the change. |
| UserForm.UndefinedRuleValidateDiffers | src/user-form.ts:93-103 | A key with an undefined rule stays in the fields, unflagged, and among the returned values here. `Form.validate` drops it from both. |
| Scenarios.AddressAccepted | src/validator.ts:52 | `"a@b.com"` passes "email". |
| Scenarios.AggregateFailure | src/form.ts:84-93 | With `name` empty and `email` valid, `validate` returns null, flags `name` and leaves `email` unflagged. |
| Scenarios.AggregateSuccess | src/form.ts:84-93 | With both fields valid, `validate` returns both values and flags nothing. |
| Scenarios.Overrides | src/form.ts:43-68 | `setValues` changes a value without touching the flag. `setErrors` flags the field and stores the message without touching the value. |
| Scenarios.FirstRuleWins | src/validator.ts:24-31 | In a list of two email-checking rules that both fail on a non-empty non-address, the first rule's message is reported. |

## Left out

- React plumbing (`useState`, `useRef`, functional state updates, re-render scheduling): the state is an explicit record of the field map and the dirty flag, and every operation is a transition on it.
- `validate` reads the `fields` captured at render time in the source (`src/use-form.ts` line 43, `src/user-form.ts` line 175); the model validates the current state, because the staleness is a scheduling artefact of the host.
- In-place mutation through shallow copies in `setValues` and `setErrors`: these are modelled as pure updates, because the aliasing is an artefact of React state.
- An update that throws is modelled as a failed call (`None`) that ends a run; what React then does with the thrown error is not modelled.
- Lifecycle.Run: a raw-value payload on the standalone hook's `onChange` (`src/user-form.ts` line 37) throws in the handler before any state update, so in the library the state stays as it was and later calls still run; the model ends the run at that call instead of continuing from the unchanged state.
- Regular-expression patterns are opaque predicates on text; JavaScript regex details such as `lastIndex` with a global flag are not modelled.
- Values are text only. The source also allows numbers, for which "required" rejects 0; text cannot express that case.
- An `error` key that the source leaves out of a field is written `false`, since the source only reads it by truthiness.
- The declared but unused `isMulti` flag and nested `rules` of a rule: the validator never reads them.
- `src/form.ts` types a configuration entry as a single rule; the model also admits a list of rules there, which `validateField` handles the same way.
- The raw `setFields` setter that `src/user-form.ts` also exposes: it replaces the state arbitrarily and bypasses every operation modelled here.
- `setErrors` in `src/user-form.ts` does not check own properties, so it also visits inherited enumerable keys; the model takes the given keys only.
- An own property of the `setValues` argument whose value is `undefined`: the model's values are always text.
- The demo applications (`test.tsx`, `index.jsx`): they render widgets and log to the console.

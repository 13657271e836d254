/**
 The data model of the form-validation core: patterns, rules, rule
 configurations, field records and change payloads.

 Values are text (`string`). react-form's values are `ReactText`, so a
 number can appear as well; the only place where that matters is the
 "required" pattern, which also rejects the number 0.
 */
module RuleModel {

  datatype Option<+T> = None | Some(value: T)

  /** JavaScript truthiness of a `string | undefined`: present and non-empty. */
  predicate Truthy(m: Option<string>) {
    m.Some? && m.value != ""
  }

  /** A field name: an own property key of the rules configuration. */
  type Key = string

  /** One atomic test. A regular expression is an opaque predicate on text. */
  datatype Pattern =
    | Required
    | Email
    | Regex(accepts: string -> bool)

  /** The `test` property of a rule: missing, one pattern, or a list of patterns. */
  datatype Tests =
    | NoTest
    | One(pattern: Pattern)
    | Many(patterns: seq<Pattern>)

  /** A rule carries one shared message for all of its patterns. */
  datatype Rule = Rule(message: Option<string>, test: Tests)

  /** What a field key is configured with: nothing (undefined), one rule, or a list of rules. */
  datatype RuleSpec =
    | Absent
    | Single(rule: Rule)
    | List(rules: seq<Rule>)

  /** The change handler of a field, identified by the key it is bound to. */
  datatype Handler = Handler(key: Key)

  /**
   A field record as spread onto an input widget. An `error` key that
   `validateField` (src/validator.ts) leaves out is written `false`; `helperText` is `None` when absent.
   */
  datatype Field = Field(value: string, error: bool, helperText: Option<string>, onChange: Handler)

  /** What a widget passes to `onChange`: an event with a target, or the raw value. */
  datatype Payload =
    | InputEvent(targetValue: string)
    | RawValue(raw: string)

  /** The patterns a `test` property runs, in order. */
  function PatternsOf(t: Tests): seq<Pattern> {
    match t
    case NoTest => []
    case One(p) => [p]
    case Many(ps) => ps
  }

  /** The rules a configuration entry holds, in declaration order. */
  function RulesOf(spec: RuleSpec): seq<Rule> {
    match spec
    case Absent => []
    case Single(r) => [r]
    case List(rs) => rs
  }
}

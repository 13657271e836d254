/**
 The matcher and the rule walker: `test`, `isInvalid` and `validateField`.

 A rule fails when one of its patterns rejects the value; it then reports
 its one shared message, which may be missing or empty. Such a falsy
 result counts as passing wherever react-form asks "is there an error?".
 */
module Validator {
  import opened RuleModel
  import Email

  /** Whether one pattern accepts a value. ("required" also rejects the number 0,
      which text values cannot express.) */
  function Test(p: Pattern, v: string): (ok: bool)
    ensures p.Required? ==> (ok <==> v != "")
    ensures p.Email? ==> (ok <==> v == "" || Email.Shape(v))
    ensures p.Regex? ==> (ok <==> p.accepts(v))
  {
    match p
    case Email =>
      Email.MatchesIffShape(v);
      v == "" || Email.Matches(v)
    case Required => v != ""
    case Regex(accepts) => accepts(v)
  }

  /** Every pattern of the list accepts the value. */
  ghost predicate AllPass(ps: seq<Pattern>, v: string) {
    forall i | 0 <= i < |ps| :: Test(ps[i], v)
  }

  /** The loop over a rule's list of patterns: the first rejecting pattern
      returns the rule's message, whichever pattern it was. */
  function TestsError(ps: seq<Pattern>, message: Option<string>, v: string): (e: Option<string>)
    ensures AllPass(ps, v) ==> e == None
    ensures !AllPass(ps, v) ==> e == message
  {
    if |ps| == 0 then None
    else if !Test(ps[0], v) then message
    else
      assert forall i | 1 <= i < |ps| :: ps[i] == ps[1..][i - 1];
      TestsError(ps[1..], message, v)
  }

  /** `isInvalid` on one rule object. A rule without a test never fails. */
  function RuleError(r: Rule, v: string): (e: Option<string>)
    ensures r.test.NoTest? ==> e == None
    ensures e == (if AllPass(PatternsOf(r.test), v) then None else r.message)
  {
    match r.test
    case NoTest => None
    case One(p) =>
      assert PatternsOf(r.test)[0] == p;
      if !Test(p, v) then r.message else None
    case Many(ps) => TestsError(ps, r.message, v)
  }

  /** Rule `rs[i]` is the first rule of the list that reports a truthy message. */
  ghost predicate FirstFailing(rs: seq<Rule>, v: string, i: int) {
    && 0 <= i < |rs|
    && Truthy(RuleError(rs[i], v))
    && forall j | 0 <= j < i :: !Truthy(RuleError(rs[j], v))
  }

  /** `isInvalid` on a list of rules: the first truthy message in declaration order. */
  function ListError(rs: seq<Rule>, v: string): (e: Option<string>)
    ensures e == None || Truthy(e)
    ensures e == None <==> forall i | 0 <= i < |rs| :: !Truthy(RuleError(rs[i], v))
    ensures forall i | FirstFailing(rs, v, i) :: e == RuleError(rs[i], v)
  {
    if |rs| == 0 then None
    else
      var err := RuleError(rs[0], v);
      if Truthy(err) then err
      else
        assert forall i | 1 <= i < |rs| :: rs[i] == rs[1..][i - 1];
        assert forall i | 1 <= i < |rs| && FirstFailing(rs, v, i) :: FirstFailing(rs[1..], v, i - 1);
        ListError(rs[1..], v)
  }

  /** `isInvalid`: no error for an absent rule; otherwise the rule's or the list's error. */
  function IsInvalid(spec: RuleSpec, v: string): (e: Option<string>)
    ensures spec.Absent? ==> e == None
    ensures Truthy(e) <==> ListError(RulesOf(spec), v).Some?
    ensures Truthy(e) ==> e == ListError(RulesOf(spec), v)
  {
    match spec
    case Absent => None
    case Single(r) => RuleError(r, v)
    case List(rs) => ListError(rs, v)
  }

  /** `validateField`: the field with the new value, flagged and labelled when
      the value fails, otherwise reduced to its value and change handler. */
  /** A field shows the verdict `e` of `isInvalid`: flagged and labelled with `e`
      when `e` is truthy, unflagged and without a message otherwise. */
  ghost predicate Shows(f: Field, e: Option<string>) {
    && (f.error <==> Truthy(e))
    && f.helperText == (if Truthy(e) then e else None)
  }

  function ValidateField(field: Field, spec: RuleSpec, v: string): (r: Field)
    ensures r.value == v
    ensures r.onChange == field.onChange
    ensures r.error <==> Truthy(IsInvalid(spec, v))
    ensures r.error <==> Truthy(r.helperText)
    ensures r.error ==> r.helperText == IsInvalid(spec, v)
    ensures !r.error ==> r.helperText == None
    ensures Shows(r, IsInvalid(spec, v))
  {
    var error := IsInvalid(spec, v);
    if Truthy(error) then field.(error := true, value := v, helperText := error)
    else Field(v, false, None, field.onChange)
  }

  /** Errors on a prefix decide a list: rules after the first failing one are never consulted. */
  lemma {:induction false} ListErrorAppend(a: seq<Rule>, b: seq<Rule>, v: string)
    ensures ListError(a + b, v) == if ListError(a, v).Some? then ListError(a, v) else ListError(b, v)
    decreases |a|
  {
    if |a| > 0 {
      assert (a + b)[0] == a[0];
      assert (a + b)[1..] == a[1..] + b;
      ListErrorAppend(a[1..], b, v);
    } else {
      assert a + b == b;
    }
  }

  /** Short-circuit: once a prefix fails, what follows it cannot change the result. */
  lemma ShortCircuit(a: seq<Rule>, b: seq<Rule>, b': seq<Rule>, v: string)
    requires ListError(a, v).Some?
    ensures ListError(a + b, v) == ListError(a + b', v) == ListError(a, v)
  {
    ListErrorAppend(a, b, v);
    ListErrorAppend(a, b', v);
  }

  /** Re-validating a validated field against its own value changes nothing. */
  lemma ValidateFieldIdempotent(f: Field, spec: RuleSpec, v: string)
    ensures ValidateField(ValidateField(f, spec, v), spec, v) == ValidateField(f, spec, v)
  {
  }

  lemma MatcherExamples()
    ensures !Test(Required, "") && Test(Required, "x")
    ensures Test(Email, "") && Test(Email, "a@b")
    ensures !Test(Email, "not-an-email")
  {
    Email.MatchesIffShape("a@b");
    Email.ExampleAccepts();
    Email.MatchesIffShape("not-an-email");
    Email.ExampleNoAt();
  }
}

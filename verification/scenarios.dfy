/**
 Worked scenarios for a two-field form: `name` is required, `email` is
 required and must look like an address, each rule with one message.
 */
module Scenarios {
  import opened RuleModel
  import opened Validator
  import opened FormState
  import FormController
  import Email

  const NameRule := Rule(Some("name is required"), One(Required))
  const EmailRule := Rule(Some("email is not valid"), Many([Required, Email]))

  function Rules(): map<Key, RuleSpec> {
    map["name" := Single(NameRule), "email" := Single(EmailRule)]
  }

  lemma AddressAccepted()
    ensures Test(Email, "a@b.com")
  {
    var s := "a@b.com";
    assert s[..1] == "a" && s[2..] == "b.com";
    assert Email.SplitAt(s, 1);
  }

  lemma EmailRulePasses()
    ensures !Truthy(IsInvalid(Rules()["email"], "a@b.com"))
  {
    AddressAccepted();
    assert Test(Required, "a@b.com");
    assert AllPass(PatternsOf(EmailRule.test), "a@b.com");
  }

  /** A form holding the given values in both fields. */
  ghost predicate Holds(s: State, name: string, email: string) {
    && FormController.Wf(Rules(), s)
    && "name" in s.fields && s.fields["name"].value == name
    && "email" in s.fields && s.fields["email"].value == email
  }

  /** One failing field makes `validate` return null; only that field is flagged. */
  lemma AggregateFailure(s: State)
    requires Holds(s, "", "a@b.com")
    ensures var o := FormController.Validate(Rules(), s);
      && o.values.None?
      && o.state.fields["name"].error
      && !o.state.fields["email"].error
  {
    assert FormController.DefinedKeys(Rules()) == {"name", "email"};
    assert !Test(Required, "");
    assert Truthy(IsInvalid(Rules()["name"], ""));
    EmailRulePasses();
  }

  lemma TwoKeys(vs: map<Key, string>, name: string, email: string)
    requires vs.Keys == {"name", "email"} && vs["name"] == name && vs["email"] == email
    ensures vs == map["name" := name, "email" := email]
  {
  }

  /** With both fields valid, `validate` returns both values and flags nothing. */
  lemma AggregateSuccess(s: State)
    requires Holds(s, "Ann", "a@b.com")
    ensures var o := FormController.Validate(Rules(), s);
      && o.values == Some(map["name" := "Ann", "email" := "a@b.com"])
      && !o.state.fields["name"].error
      && !o.state.fields["email"].error
  {
    var o := FormController.Validate(Rules(), s);
    assert FormController.DefinedKeys(Rules()) == {"name", "email"};
    assert !Truthy(IsInvalid(Rules()["name"], "Ann"));
    EmailRulePasses();
    assert o.values.Some?;
    var vs := o.values.value;
    assert vs.Keys == {"name", "email"};
    assert vs["name"] == "Ann" && vs["email"] == "a@b.com";
    TwoKeys(vs, "Ann", "a@b.com");
  }

  /** `setValues` changes only the value; `setErrors` changes only the flag and message. */
  lemma Overrides(s: State)
    requires Holds(s, "", "")
    ensures var r := FormState.SetValues(s, map["name" := "X"]);
      r.Some? && r.value.fields["name"].value == "X" && r.value.fields["name"].error == s.fields["name"].error
    ensures var r := FormController.SetErrors(s, map["name" := Some("bad")]);
      && r.Some?
      && r.value.fields["name"].error
      && r.value.fields["name"].helperText == Some("bad")
      && r.value.fields["name"].value == ""
  {
  }

  /** In a list of rules that both fail, the first rule's message is reported. */
  lemma FirstRuleWins(v: string)
    requires v != "" && !Email.Shape(v)
    ensures var rs := [EmailRule, Rule(Some("other"), One(Email))];
      && Truthy(RuleError(rs[0], v))
      && Truthy(RuleError(rs[1], v))
      && IsInvalid(List(rs), v) == Some("email is not valid")
  {
    var rs := [EmailRule, Rule(Some("other"), One(Email))];
    assert !AllPass(PatternsOf(EmailRule.test), v) by {
      assert !Test(PatternsOf(EmailRule.test)[1], v);
    }
    assert FirstFailing(rs, v, 0);
  }
}

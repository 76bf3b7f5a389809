/** The part of a FluentValidation validator the services observe. Every rule of a
    validator is evaluated, in declaration order, even after an earlier one failed
    (the validators keep the default cascade mode); a service throws with the first
    message of the resulting error list. */
module Validation {
  import opened Errors

  /** One rule (or one failure-adding custom step) of a validator: whether the value
      passes it, and the message it reports when it does not. */
  datatype Rule = Rule(passes: bool, message: Message)

  /** The messages of the failing rules, in rule order. */
  function Validate(rules: seq<Rule>): (errors: seq<Message>)
    ensures |errors| <= |rules|
    ensures errors == [] <==> forall i :: 0 <= i < |rules| ==> rules[i].passes
    ensures errors != [] ==>
              exists i :: 0 <= i < |rules| && !rules[i].passes && errors[0] == rules[i].message
                          && forall j :: 0 <= j < i ==> rules[j].passes
    ensures forall m :: m in errors <==> exists i :: 0 <= i < |rules| && !rules[i].passes && rules[i].message == m
  {
    if rules == [] then []
    else
      var rest := Validate(rules[1..]);
      assert forall j :: 0 <= j < |rules| - 1 ==> rules[1..][j] == rules[j + 1];
      if rules[0].passes then rest else [rules[0].message] + rest
  }

  /** When the first k rules pass, their presence does not change the errors. */
  lemma {:induction false} PassingPrefix(rules: seq<Rule>, k: nat)
    requires k <= |rules|
    requires forall i :: 0 <= i < k ==> rules[i].passes
    ensures Validate(rules) == Validate(rules[k..])
  {
    if k > 0 {
      assert rules[1..][k - 1..] == rules[k..];
      PassingPrefix(rules[1..], k - 1);
    }
  }

  /** The first error is the message of the first failing rule. */
  lemma FirstFailingRule(rules: seq<Rule>, k: nat)
    requires k < |rules| && !rules[k].passes
    requires forall i :: 0 <= i < k ==> rules[i].passes
    ensures Validate(rules) != [] && Validate(rules)[0] == rules[k].message
  {
    PassingPrefix(rules, k);
  }
}

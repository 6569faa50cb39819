/** A minimal sequential validator over a registry: run every rule in
    registration order and keep the failures. The library's Validator class
    is not part of this model; this harness is the behaviour its tests rely
    on (ValidatorRuleTests.cs), stated so the test scenarios can be proved. */
module Validator {
  import opened Wrappers
  import opened Failures
  import opened RuleBuilder

  /** The outcome of every rule, in registration order. */
  function Outcomes<T>(reg: Registry<T>, x: T): (os: seq<Option<Failure>>)
    requires reg.Valid()
    ensures |os| == |reg.rules|
    ensures forall i :: 0 <= i < |os| ==> os[i] == RuleOutcome(reg, i, x)
  {
    seq(|reg.rules|, i requires 0 <= i < |reg.rules| => RuleOutcome(reg, i, x))
  }

  /** The failures among a sequence of outcomes, in their original order. */
  function Collect(os: seq<Option<Failure>>): (fs: seq<Failure>)
    ensures |fs| <= |os|
    decreases |os|
  {
    if |os| == 0 then []
    else
      var rest := Collect(os[1..]);
      match os[0]
      case Some(f) => [f] + rest
      case None => rest
  }

  /** A failure is collected exactly when it is one of the outcomes. */
  lemma {:induction false} CollectMembers(os: seq<Option<Failure>>)
    ensures forall f :: f in Collect(os) <==> Some(f) in os
    decreases |os|
  {
    if |os| > 0 {
      CollectMembers(os[1..]);
      assert os == [os[0]] + os[1..];
    }
  }

  /** Collecting is compositional: the failures of a concatenation are the
      failures of its parts, in order. */
  lemma {:induction false} CollectAppend(a: seq<Option<Failure>>, b: seq<Option<Failure>>)
    ensures Collect(a + b) == Collect(a) + Collect(b)
    decreases |a|
  {
    if |a| == 0 {
      assert a + b == b;
    } else {
      assert (a + b)[0] == a[0];
      assert (a + b)[1..] == a[1..] + b;
      CollectAppend(a[1..], b);
    }
  }

  /** No outcome is a failure exactly when nothing is collected. */
  lemma CollectEmpty(os: seq<Option<Failure>>)
    ensures Collect(os) == [] <==> forall i :: 0 <= i < |os| ==> os[i].None?
  {
    CollectMembers(os);
    if Collect(os) != [] {
      var f := Collect(os)[0];
      assert f in Collect(os);
    } else if exists i :: 0 <= i < |os| && os[i].Some? {
      var i :| 0 <= i < |os| && os[i].Some?;
      assert os[i].value in Collect(os);
    }
  }

  /** When exactly one outcome is a failure, it is all that is collected. */
  lemma {:induction false} CollectSingle(os: seq<Option<Failure>>, k: nat)
    requires k < |os| && os[k].Some?
    requires forall j :: 0 <= j < |os| && j != k ==> os[j].None?
    ensures Collect(os) == [os[k].value]
  {
    var before, after := os[..k], os[k + 1..];
    assert os == before + [os[k]] + after;
    CollectAppend(before + [os[k]], after);
    CollectAppend(before, [os[k]]);
    CollectEmpty(before);
    CollectEmpty(after);
    assert Collect([os[k]]) == [os[k].value] by {
      assert [os[k]][1..] == [];
    }
  }

  /** ValidationResult: the failures of one call and its validity flag. */
  datatype ValidationResult = ValidationResult(errors: seq<Failure>) {
    predicate IsValid() { |errors| == 0 }
  }

  /** Runs every registered rule against the instance in registration order
      and keeps each failure. The result is valid exactly when every rule
      passes, and it holds precisely the failures the rules produced. */
  function Validate<T>(reg: Registry<T>, x: T): (r: ValidationResult)
    requires reg.Valid()
    ensures r.IsValid() <==> forall i :: 0 <= i < |reg.rules| ==> RuleOutcome(reg, i, x).None?
    ensures forall f :: f in r.errors <==>
              exists i :: 0 <= i < |reg.rules| && RuleOutcome(reg, i, x) == Some(f)
    ensures |r.errors| <= |reg.rules|
  {
    var os := Outcomes(reg, x);
    CollectEmpty(os);
    CollectMembers(os);
    assert forall f :: Some(f) in os <==> exists i :: 0 <= i < |os| && os[i] == Some(f);
    ValidationResult(Collect(os))
  }

  /** Every reported failure names the property of the builder whose rule
      produced it. */
  lemma FailuresNameTheirBuilder<T>(reg: Registry<T>, x: T)
    requires reg.Valid()
    ensures forall f :: f in Validate(reg, x).errors ==>
              exists j :: 0 <= j < |reg.builders| && f.propertyName == reg.builders[j].name
  {
    forall f | f in Validate(reg, x).errors
      ensures exists j :: 0 <= j < |reg.builders| && f.propertyName == reg.builders[j].name
    {
      var i :| 0 <= i < |reg.rules| && RuleOutcome(reg, i, x) == Some(f);
      assert f.propertyName == reg.builders[reg.rules[i].owner].name;
    }
  }

  /** Registering one more check leaves the failures of the earlier rules
      as they were and adds this check's own outcome at the end. */
  lemma AppendExtendsResult<T>(reg: Registry<T>, id: nat, check: Check<T>, x: T)
    requires reg.Valid() && id < |reg.builders|
    ensures Validate(Append(reg, id, check), x).errors
         == Validate(reg, x).errors + Collect([Evaluate(reg.builders[id], check, x)])
  {
    var after := Append(reg, id, check);
    assert Outcomes(after, x) == Outcomes(reg, x) + [Evaluate(reg.builders[id], check, x)];
    CollectAppend(Outcomes(reg, x), [Evaluate(reg.builders[id], check, x)]);
  }

  /** A single violated rule yields exactly one failure, and it carries the
      property name of that rule's builder. */
  lemma SingleViolation<T>(reg: Registry<T>, x: T, k: nat)
    requires reg.Valid() && k < |reg.rules| && RuleOutcome(reg, k, x).Some?
    requires forall j :: 0 <= j < |reg.rules| && j != k ==> RuleOutcome(reg, j, x).None?
    ensures |Validate(reg, x).errors| == 1
    ensures Validate(reg, x).errors[0].propertyName == reg.builders[reg.rules[k].owner].name
  {
    CollectSingle(Outcomes(reg, x), k);
  }
}

/** RuleBuilder<T, TProp>: attaches checks for one property to the rule list
    the validator owns, and gates them with an optional condition.

    Every check the builder registers is a closure over the builder itself,
    so it reads the builder's condition when it runs, not when it was
    registered. The model keeps that sharing explicit: a `Registry` holds the
    builders and the shared rule list, a `Rule` names its builder by index,
    and evaluating a rule looks its builder up in the registry as it stands
    when validation runs. */
module RuleBuilder {
  import opened Wrappers
  import opened Values
  import opened Failures

  /** One builder's state: the property name it reports, its selector (the
      compiled expression), the static property type, the property type's
      default comparer, and the current condition (`_condition`). */
  datatype Builder<!T> = Builder(
    name: string,
    selector: T -> Value,
    propType: PropType,
    compare: (Value, Value) -> int,
    condition: Option<T -> bool>)

  /** What one registered closure tests, with the caller's message if any.
      `Complement` is the extra rule of `When(condition, errorMessage)`. */
  datatype Check<!T> =
    | NonEmpty(message: Option<string>)
    | Differs(other: Value, message: Option<string>)
    | Matches(other: Value, message: Option<string>)
    | AtMost(otherSelector: T -> Value, message: Option<string>)
    | AtLeast(otherSelector: T -> Value, message: Option<string>)
    | InEnum(message: Option<string>)
    | Complement(text: string)
  {
    /** The caller-supplied message this check reports, if any. */
    function Custom(): Option<string> {
      if Complement? then Some(text) else message
    }
  }

  /** An entry of the shared rule list: a check and the builder it closes over. */
  datatype Rule<!T> = Rule(owner: nat, check: Check<T>)

  /** The validator's rule list together with every builder that writes to it. */
  datatype Registry<!T> = Registry(builders: seq<Builder<T>>, rules: seq<Rule<T>>) {
    /** Every rule belongs to a builder of this registry. */
    predicate Valid() {
      forall i :: 0 <= i < |rules| ==> rules[i].owner < |builders|
    }
  }

  /** The state a validator starts from: no builders, no rules. */
  function EmptyRegistry<T>(): Registry<T> {
    Registry([], [])
  }

  // ---------------------------------------------------------------------
  // Registration
  // ---------------------------------------------------------------------

  /** The builder's constructor: a new builder for one property, sharing the
      registry's rule list, with no condition set. Its index is the old
      number of builders. */
  function RuleFor<T>(reg: Registry<T>, name: string, selector: T -> Value,
                      propType: PropType, compare: (Value, Value) -> int): (r: Registry<T>)
    ensures r.rules == reg.rules
    ensures |r.builders| == |reg.builders| + 1
    ensures r.builders[..|reg.builders|] == reg.builders
    ensures r.builders[|reg.builders|].name == name
    ensures r.builders[|reg.builders|].selector == selector
    ensures r.builders[|reg.builders|].condition == None
    ensures reg.Valid() ==> r.Valid()
  {
    reg.(builders := reg.builders + [Builder(name, selector, propType, compare, None)])
  }

  /** `after` is `before` with exactly `rule` appended to the rule list:
      no builder changes and every earlier rule stays where it was. */
  ghost predicate AppendsOne<T>(before: Registry<T>, after: Registry<T>, rule: Rule<T>) {
    && after.builders == before.builders
    && |after.rules| == |before.rules| + 1
    && after.rules[..|before.rules|] == before.rules
    && after.rules[|before.rules|] == rule
  }

  /** `_rules.Add(closure); return this;` shared by every check method. */
  function Append<T>(reg: Registry<T>, id: nat, check: Check<T>): (r: Registry<T>)
    requires id < |reg.builders|
    ensures AppendsOne(reg, r, Rule(id, check))
    ensures reg.Valid() ==> r.Valid()
  {
    reg.(rules := reg.rules + [Rule(id, check)])
  }

  function NotEmpty<T>(reg: Registry<T>, id: nat, message: Option<string>): (r: Registry<T>)
    requires id < |reg.builders|
    ensures AppendsOne(reg, r, Rule(id, NonEmpty(message)))
    ensures reg.Valid() ==> r.Valid()
  {
    Append(reg, id, NonEmpty(message))
  }

  function NotEqual<T>(reg: Registry<T>, id: nat, other: Value, message: Option<string>): (r: Registry<T>)
    requires id < |reg.builders|
    ensures AppendsOne(reg, r, Rule(id, Differs(other, message)))
    ensures reg.Valid() ==> r.Valid()
  {
    Append(reg, id, Differs(other, message))
  }

  function Equal<T>(reg: Registry<T>, id: nat, other: Value, message: Option<string>): (r: Registry<T>)
    requires id < |reg.builders|
    ensures AppendsOne(reg, r, Rule(id, Matches(other, message)))
    ensures reg.Valid() ==> r.Valid()
  {
    Append(reg, id, Matches(other, message))
  }

  function LessThanOrEqualTo<T>(reg: Registry<T>, id: nat, otherSelector: T -> Value,
                                message: Option<string>): (r: Registry<T>)
    requires id < |reg.builders|
    ensures AppendsOne(reg, r, Rule(id, AtMost(otherSelector, message)))
    ensures reg.Valid() ==> r.Valid()
  {
    Append(reg, id, AtMost(otherSelector, message))
  }

  function GreaterThanOrEqualTo<T>(reg: Registry<T>, id: nat, otherSelector: T -> Value,
                                   message: Option<string>): (r: Registry<T>)
    requires id < |reg.builders|
    ensures AppendsOne(reg, r, Rule(id, AtLeast(otherSelector, message)))
    ensures reg.Valid() ==> r.Valid()
  {
    Append(reg, id, AtLeast(otherSelector, message))
  }

  function IsInEnum<T>(reg: Registry<T>, id: nat, message: Option<string>): (r: Registry<T>)
    requires id < |reg.builders|
    ensures AppendsOne(reg, r, Rule(id, InEnum(message)))
    ensures reg.Valid() ==> r.Valid()
  {
    Append(reg, id, InEnum(message))
  }

  /** `When(condition)`: replaces the builder's condition and registers
      nothing. Every other builder, and everything else about this one, is
      left as it was. */
  function When<T>(reg: Registry<T>, id: nat, condition: T -> bool): (r: Registry<T>)
    requires id < |reg.builders|
    ensures r.rules == reg.rules
    ensures |r.builders| == |reg.builders|
    ensures r.builders[id] == reg.builders[id].(condition := Some(condition))
    ensures forall j :: 0 <= j < |reg.builders| && j != id ==> r.builders[j] == reg.builders[j]
    ensures reg.Valid() ==> r.Valid()
  {
    reg.(builders := reg.builders[id := reg.builders[id].(condition := Some(condition))])
  }

  /** `When(condition, errorMessage)`: replaces the condition exactly as
      `When(condition)` does and, only when a message is given, also
      registers the complement rule that reports that message. */
  function WhenWithMessage<T>(reg: Registry<T>, id: nat, condition: T -> bool,
                              message: Option<string>): (r: Registry<T>)
    requires id < |reg.builders|
    ensures r.builders == When(reg, id, condition).builders
    ensures message.None? ==> r.rules == reg.rules
    ensures message.Some? ==> |r.rules| == |reg.rules| + 1 && r.rules[..|reg.rules|] == reg.rules
    ensures message.Some? ==> r.rules[|reg.rules|] == Rule(id, Complement(message.value))
    ensures reg.Valid() ==> r.Valid()
  {
    var gated := When(reg, id, condition);
    match message
    case None => gated
    case Some(text) => Append(gated, id, Complement(text))
  }

  // ---------------------------------------------------------------------
  // Evaluation
  // ---------------------------------------------------------------------

  /** `_condition != null && !_condition(instance)`: a condition is set and
      does not hold of the instance. */
  predicate Suppressed<T>(condition: Option<T -> bool>, x: T) {
    condition.Some? && !condition.value(x)
  }

  /** The failure a builder reports: its own property name, and the caller's
      message or else the method's default template. */
  function Report<T>(b: Builder<T>, custom: Option<string>, template: Message): (f: Failure)
    ensures f.propertyName == b.name
  {
    Failure(b.name, MessageOr(custom, template))
  }

  /** IsInEnum's three tests, in the order RuleBuilder.cs makes them: a
      null value, then a property type that is not an enumeration, then a
      value that is not a declared member. */
  function EnumTest<T>(b: Builder<T>, value: Value, custom: Option<string>): (r: Option<Failure>)
    ensures r.None? <==> b.propType.EnumType? && value.Enum? && value.underlying in b.propType.members
    ensures value == Null ==> r == Some(Report(b, custom, MustBeValidEnum))
    ensures value != Null && b.propType.NonEnumType? ==> r == Some(Report(b, custom, IsNotEnumType))
    ensures value != Null && b.propType.EnumType? && r.Some? ==> r == Some(Report(b, custom, MustBeValidEnum))
  {
    if value == Null then Some(Report(b, custom, MustBeValidEnum))
    else if b.propType.NonEnumType? then Some(Report(b, custom, IsNotEnumType))
    else if value.Enum? && value.underlying in b.propType.members then None
    else Some(Report(b, custom, MustBeValidEnum))
  }

  /** The type-specific test of a check, run once the condition gate has let
      the instance through. */
  function Test<T>(b: Builder<T>, c: Check<T>, x: T): (r: Option<Failure>)
    requires !c.Complement?
    ensures c.NonEmpty? ==> (r.Some? <==> IsEmpty(b.selector(x)))
    ensures c.Differs? ==> (r.Some? <==> b.compare(b.selector(x), c.other) == 0)
    ensures c.Matches? ==> (r.Some? <==> b.compare(b.selector(x), c.other) != 0)
    ensures c.AtMost? ==> (r.Some? <==> b.compare(b.selector(x), c.otherSelector(x)) > 0)
    ensures c.AtLeast? ==> (r.Some? <==> b.compare(b.selector(x), c.otherSelector(x)) < 0)
    ensures c.InEnum? ==> (r.None? <==> b.propType.EnumType? && b.selector(x).Enum?
                                         && b.selector(x).underlying in b.propType.members)
    ensures c.NonEmpty? && r.Some? ==> r.value == Report(b, c.message, MustNotBeEmpty)
    ensures (c.Differs? || c.Matches?) && r.Some? ==> r.value == Report(b, c.message, MustNotBeEqualTo(c.other))
    ensures c.AtMost? && r.Some? ==> r.value == Report(b, c.message, MustBeAtMost(c.otherSelector(x)))
    ensures c.AtLeast? && r.Some? ==> r.value == Report(b, c.message, MustBeAtLeast(c.otherSelector(x)))
  {
    var value := b.selector(x);
    match c
    case NonEmpty(m) =>
      if IsEmpty(value) then Some(Report(b, m, MustNotBeEmpty)) else None
    case Differs(other, m) =>
      if b.compare(value, other) != 0 then None else Some(Report(b, m, MustNotBeEqualTo(other)))
    case Matches(other, m) =>
      // `Equal` reuses `NotEqual`'s "must not be equal to" template here.
      if b.compare(value, other) == 0 then None else Some(Report(b, m, MustNotBeEqualTo(other)))
    case AtMost(sel, m) =>
      var other := sel(x);
      if b.compare(value, other) <= 0 then None else Some(Report(b, m, MustBeAtMost(other)))
    case AtLeast(sel, m) =>
      var other := sel(x);
      if b.compare(value, other) >= 0 then None else Some(Report(b, m, MustBeAtLeast(other)))
    case InEnum(m) =>
      EnumTest(b, value, m)
  }

  /** Running one registered closure against an instance, under the
      builder's condition at that moment. */
  function Evaluate<T>(b: Builder<T>, c: Check<T>, x: T): (r: Option<Failure>)
    ensures r.Some? ==> r.value.propertyName == b.name
    ensures !c.Complement? && Suppressed(b.condition, x) ==> r.None?
    ensures !c.Complement? && !Suppressed(b.condition, x) ==> r == Test(b, c, x)
    ensures c.Complement? ==> (r.Some? <==> Suppressed(b.condition, x))
    ensures r.Some? && c.Custom().Some? ==> r.value.errorMessage == Text(c.Custom().value)
    ensures r.Some? && c.Custom().None? ==> !r.value.errorMessage.Text?
  {
    if c.Complement? then
      if Suppressed(b.condition, x) then Some(Failure(b.name, Text(c.text))) else None
    else if Suppressed(b.condition, x) then None
    else Test(b, c, x)
  }

  /** The outcome of the i-th rule of the registry, evaluated with its
      builder's current state. */
  function RuleOutcome<T>(reg: Registry<T>, i: nat, x: T): (r: Option<Failure>)
    requires reg.Valid() && i < |reg.rules|
    ensures r.Some? ==> r.value.propertyName == reg.builders[reg.rules[i].owner].name
  {
    var rule := reg.rules[i];
    Evaluate(reg.builders[rule.owner], rule.check, x)
  }

  // ---------------------------------------------------------------------
  // Properties of the builder
  // ---------------------------------------------------------------------

  /** The condition is read when a rule runs: a `When` issued after checks
      were registered gates those earlier checks too. Every non-complement
      rule of the builder passes on an instance the new condition rejects,
      and rules of other builders are not affected. */
  lemma LateWhenGatesEarlierChecks<T>(reg: Registry<T>, id: nat, condition: T -> bool, x: T)
    requires reg.Valid() && id < |reg.builders|
    ensures !condition(x) ==>
              forall i :: 0 <= i < |reg.rules| && reg.rules[i].owner == id && !reg.rules[i].check.Complement?
                ==> RuleOutcome(When(reg, id, condition), i, x).None?
    ensures forall i :: 0 <= i < |reg.rules| && reg.rules[i].owner != id
              ==> RuleOutcome(When(reg, id, condition), i, x) == RuleOutcome(reg, i, x)
  {
  }

  /** A second `When` overwrites the first: the earlier condition leaves no
      trace, so the two are not conjoined. */
  lemma LastWhenWins<T>(reg: Registry<T>, id: nat, first: T -> bool, second: T -> bool)
    requires id < |reg.builders|
    ensures When(When(reg, id, first), id, second) == When(reg, id, second)
  {
  }

  /** The complement rule of `When(condition, message)` also reads the
      builder's final condition: when a later `When(other)` replaced the
      condition, the message is reported exactly when `other` fails. */
  lemma ComplementFollowsFinalCondition<T>(reg: Registry<T>, id: nat, condition: T -> bool,
                                           message: string, other: T -> bool, x: T)
    requires reg.Valid() && id < |reg.builders|
    ensures
      var r := When(WhenWithMessage(reg, id, condition, Some(message)), id, other);
      && r.Valid() && |r.rules| == |reg.rules| + 1
      && RuleOutcome(r, |reg.rules|, x)
           == (if other(x) then None else Some(Failure(reg.builders[id].name, Text(message))))
  {
  }

  /** With no condition in the way, exactly one of `NotEqual(other)` and
      `Equal(other)` fails on any instance. */
  lemma EqualAndNotEqualAreComplementary<T>(b: Builder<T>, other: Value, m1: Option<string>,
                                            m2: Option<string>, x: T)
    requires !Suppressed(b.condition, x)
    ensures Evaluate(b, Differs(other, m1), x).Some? != Evaluate(b, Matches(other, m2), x).Some?
  {
  }

  /** `LessThanOrEqualTo(hi)` on `lo` and `GreaterThanOrEqualTo(lo)` on `hi`
      fail on exactly the same instances when both builders use the same
      antisymmetric comparer and neither is gated off. */
  lemma BoundChecksAgree<T>(lo: Builder<T>, hi: Builder<T>, m1: Option<string>,
                            m2: Option<string>, x: T)
    requires lo.compare == hi.compare && Antisymmetric(lo.compare)
    requires !Suppressed(lo.condition, x) && !Suppressed(hi.condition, x)
    ensures Evaluate(lo, AtMost(hi.selector, m1), x).Some?
        <==> Evaluate(hi, AtLeast(lo.selector, m2), x).Some?
  {
  }
}

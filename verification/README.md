# Rule builder of Goodtocode.Validation, modelled in Dafny

This project models the rule-building and rule-evaluation engine of the
Goodtocode.Validation library. A `RuleBuilder<T, TProp>` is tied to one
property of `T`: a selector and an explicit property name. Each of its check
methods (`NotEmpty`, `NotEqual`, `Equal`, `LessThanOrEqualTo`,
`GreaterThanOrEqualTo`, `IsInEnum`) appends one closure
`T -> ValidationFailure?` to a rule list that the validator owns. `When`
sets the builder's condition. Every closure first consults that condition
when it runs, and passes if a condition is set and false. The
`When(condition, errorMessage)` overload also appends a complement rule that
fails with exactly that message when the condition is false.

Modules, leaf first:

- `Wrappers` (`wrappers.dfy`): `Option`, standing in for C#'s nullable values.
- `Values` (`values.dfy`): the `Value` datatype of property values, by runtime kind. Also the emptiness switch of `NotEmpty` (`IsEmpty`), `Char.IsWhiteSpace` and `string.IsNullOrWhiteSpace`, the static property type `PropType` (is it an enum, and which members does it declare), and the antisymmetry property of a three-way comparer.
- `Failures` (`failures.dfy`): `ValidationFailure` as `Failure(propertyName, errorMessage)`. A message is either the caller's text (`Text`) or one of the default templates; `Render` spells a template out as RuleBuilder.cs interpolates it.
- `RuleBuilder` (`rule_builder.dfy`): builders, checks and the shared rule list (`Registry`), the registration operations, and evaluation.
  - A `Rule` refers to its builder by index, so evaluation uses the builder's condition as it stands when validation runs, as the C# closures do by capturing `this`.
- `Validator` (`validator.dfy`): a minimal sequential harness that runs the rules in list order and keeps the failures. `Validator.cs` is not part of this model. This harness is scaffolding derived from the tests' usage, so the test scenarios can be stated.
- `Fixtures` (`fixtures.dfy`): the test entity, the test validator's rule chain and the test scenarios, as lemmas.

Modelling choices:

- Selectors, conditions and the comparer are plain Dafny functions.
- `Comparer<TProp>.Default` is the builder's `compare` field. It is read only through the sign of its result.
- Dates are tick counts. `DateTime.MinValue` is tick 0, and `Guid.Empty` is 0.
- Whether `TProp` is an enum is a property of the builder (`PropType`), not of the value. This matches `typeof(TProp).IsEnum`. For a nullable enum property, `IsInEnum` reports "is not an enum type", even though `NotEmpty`'s `Enum` arm matches the boxed value.

Behaviour of the C# code worth noting:

- `IsInEnum` tests for a null value first, reporting "must be a valid enum value", and only then tests the property type.
- `When(condition, errorMessage)` registers its complement rule only when the message is non-null.
- The complement rule reads the builder's condition at evaluation time. A later `When` therefore changes when the complement fires.
- `Equal`'s default message reuses `NotEqual`'s template, "must not be equal to".
- `Must` is declared on `IRuleBuilder` but not implemented by `RuleBuilder`.

## Model

| member | source | states |
|---|---|---|
| `Values.WhiteSpaceOnly` | src/Goodtocode.Validation/RuleBuilder.cs:25 | the front-to-back `IsNullOrWhiteSpace` scan of a non-null string is true exactly when every character is white space (so also for "") |
| `Values.IsEmpty` | src/Goodtocode.Validation/RuleBuilder.cs:21-33 | the emptiness switch fails exactly on the closed table: null, `Guid.Empty`, null/white-space strings, int/long/double/decimal zero, `DateTime.MinValue`, an enum with underlying value 0; short, byte, float and every other kind are never empty |
| `Failures.Render` | src/Goodtocode.Validation/RuleBuilder.cs:35-109 | a caller's message is reported verbatim; every default template begins with the property name |
| `RuleBuilder.RuleFor` | src/Goodtocode.Validation/RuleBuilder.cs:6-11 | a new builder shares the rule list unchanged, carries the given name and selector, and starts with no condition |
| `RuleBuilder.Append` | src/Goodtocode.Validation/RuleBuilder.cs:15-37 | `_rules.Add` then `return this`: exactly one rule is appended, earlier rules and all builders are unchanged |
| `RuleBuilder.NotEmpty` | src/Goodtocode.Validation/RuleBuilder.cs:13-38 | appends exactly one NotEmpty rule owned by this builder and changes nothing else |
| `RuleBuilder.NotEqual` | src/Goodtocode.Validation/RuleBuilder.cs:40-51 | appends exactly one NotEqual rule owned by this builder and changes nothing else |
| `RuleBuilder.Equal` | src/Goodtocode.Validation/RuleBuilder.cs:53-64 | appends exactly one Equal rule owned by this builder and changes nothing else |
| `RuleBuilder.LessThanOrEqualTo` | src/Goodtocode.Validation/RuleBuilder.cs:66-78 | appends exactly one `≤` rule owned by this builder and changes nothing else |
| `RuleBuilder.GreaterThanOrEqualTo` | src/Goodtocode.Validation/RuleBuilder.cs:80-92 | appends exactly one `≥` rule owned by this builder and changes nothing else |
| `RuleBuilder.IsInEnum` | src/Goodtocode.Validation/RuleBuilder.cs:94-112 | appends exactly one enum-membership rule owned by this builder and changes nothing else |
| `RuleBuilder.When` | src/Goodtocode.Validation/RuleBuilder.cs:114-118 | replaces only this builder's condition; appends no rule; every other builder is unchanged |
| `RuleBuilder.WhenWithMessage` | src/Goodtocode.Validation/RuleBuilder.cs:120-135 | sets the condition exactly as `When` does; appends the complement rule if and only if a message is given |
| `RuleBuilder.EnumTest` | src/Goodtocode.Validation/RuleBuilder.cs:100-109 | passes if and only if the property type is an enum and the value is a declared member; precedence: null → "must be a valid enum value", then non-enum type → "is not an enum type", then non-member → "must be a valid enum value"; a caller's message replaces each |
| `RuleBuilder.Test` | src/Goodtocode.Validation/RuleBuilder.cs:19-109 | once past the gate: NotEmpty fails iff the value is empty; NotEqual fails iff compare = 0; Equal fails iff compare ≠ 0; `≤` fails iff compare(value, other(x)) > 0; `≥` fails iff it is < 0; IsInEnum fails iff the value is not a declared member of an enum type; each failure carries its method's template (NotEmpty → "must not be empty", both NotEqual and Equal → "must not be equal to {other}", `≤`/`≥` → "must be ≤/≥ {other}" with the other property's value) unless the caller gave a message |
| `RuleBuilder.Evaluate` | src/Goodtocode.Validation/RuleBuilder.cs:120-132 | every check is gated (line 17 and its copies at 44, 57, 70, 84, 98): a set, false condition makes it pass whatever the value; the complement rule fails iff the condition is set and false; every failure carries the builder's name, and the caller's message when given, else a default template |
| `RuleBuilder.RuleOutcome` | src/Goodtocode.Validation/RuleBuilder.cs:11-17 | a registered rule is evaluated with its own builder's current state and reports that builder's property name |
| `RuleBuilder.LateWhenGatesEarlierChecks` | src/Goodtocode.Validation/RuleBuilder.cs:114-118 | a `When` issued after checks were registered gates those checks too, and leaves every other builder's rules' outcomes unchanged |
| `RuleBuilder.LastWhenWins` | src/Goodtocode.Validation/RuleBuilder.cs:114-118 | two `When`s in a row leave the same state as the second alone (no conjunction) |
| `RuleBuilder.ComplementFollowsFinalCondition` | src/Goodtocode.Validation/RuleBuilder.cs:120-132 | after `When(c, msg)` then `When(c2)`, the complement rule fails with exactly `msg` iff `c2` is false |
| `RuleBuilder.EqualAndNotEqualAreComplementary` | src/Goodtocode.Validation/RuleBuilder.cs:40-64 | ungated, exactly one of `NotEqual(v)` and `Equal(v)` fails on any instance |
| `RuleBuilder.BoundChecksAgree` | src/Goodtocode.Validation/RuleBuilder.cs:66-92 | with one antisymmetric comparer, `a ≤ b` on `a` and `b ≥ a` on `b` fail on exactly the same instances |
| `Validator.Collect` | src/Goodtocode.Validation/IValidator.cs:5 | keeping the failures of a run never yields more failures than rules |
| `Validator.CollectMembers` | src/Goodtocode.Validation/IValidator.cs:5 | a failure is kept iff some rule produced it |
| `Validator.CollectAppend` | src/Goodtocode.Validation/IValidator.cs:5 | failures of consecutive rule groups are kept in registration order |
| `Validator.Validate` | src/Goodtocode.Validation/IValidator.cs:5 | the result is valid iff every rule passes, and holds exactly the failures the rules produced |
| `Validator.FailuresNameTheirBuilder` | src/Goodtocode.Validation/RuleBuilder.cs:35-129 | every reported failure names the property of a registered builder, since every failure is built from the builder's own `_propertyName` (lines 35, 48, 61, 75, 89, 102, 106, 109, 129) |
| `Validator.AppendExtendsResult` | src/Goodtocode.Validation/RuleBuilder.cs:15 | registering one more check keeps the earlier failures in order and adds only the new check's outcome at the end |
| `Validator.SingleViolation` | src/Goodtocode.Validation.Tests/ValidatorRuleTests.cs:52-60 | a single violated rule yields exactly one failure, named after that rule's property |
| `Fixtures.TestEntityValidator` | src/Goodtocode.Validation.Tests/TestEntityValidator.cs:5-14 | the test validator's chain registers seven rules, the i-th owned by the i-th builder |
| `Fixtures.RuleOutcomes` | src/Goodtocode.Validation.Tests/ValidatorRuleTests.cs:19-31 | each of the seven test rules fails exactly on its own property's bad values, with its own message |
| `Fixtures.DateRulesAgree` | src/Goodtocode.Validation.Tests/TestEntityValidator.cs:9-10 | `StartDate ≤ EndDate` and `EndDate ≥ StartDate` fail on exactly the same entities |
| `Fixtures.AllRulesPassReturnsValid` | src/Goodtocode.Validation.Tests/ValidatorRuleTests.cs:33-50 | the good entity validates with zero failures on any day |
| `Fixtures.NameEmptyReturnsInvalid` | src/Goodtocode.Validation.Tests/ValidatorRuleTests.cs:52-60 | an empty name yields exactly the Name "must not be empty" failure |
| `Fixtures.AgeZeroReturnsInvalid` | src/Goodtocode.Validation.Tests/ValidatorRuleTests.cs:62-70 | age 0 yields exactly the Age "must not be equal to 0" failure |
| `Fixtures.StartAfterEndReturnsInvalid` | src/Goodtocode.Validation.Tests/ValidatorRuleTests.cs:72-80 | a start after the end is invalid with failures for StartDate and EndDate |
| `Fixtures.EndBeforeStartReturnsInvalid` | src/Goodtocode.Validation.Tests/ValidatorRuleTests.cs:82-90 | an end before the start is invalid with a failure for EndDate |
| `Fixtures.PageNumberZeroReturnsInvalid` | src/Goodtocode.Validation.Tests/ValidatorRuleTests.cs:92-100 | page number 0 yields exactly the PageNumber failure |
| `Fixtures.PageSizeZeroReturnsInvalid` | src/Goodtocode.Validation.Tests/ValidatorRuleTests.cs:102-110 | page size 0 yields exactly the PageSize failure |
| `Fixtures.StatusNotInEnumReturnsInvalid` | src/Goodtocode.Validation.Tests/ValidatorRuleTests.cs:112-120 | status 99 yields exactly the Status "must be a valid enum value" failure |
| `Fixtures.AllBadEntityFailsFiveProperties` | src/Goodtocode.Validation.Tests/ValidatorExceptionTests.cs:7-12 | the all-bad entity is invalid (so the throwing entry point raises), with failures for Name, Age, PageNumber, PageSize and Status in rule order |
| `Fixtures.LateWhenGatesNotEmpty` | src/Goodtocode.Validation/RuleBuilder.cs:114-118 | `NotEmpty().When(p)` on an empty or white-space name reports the failure iff `p` holds |
| `Fixtures.MessageOverloadReportsWhenConditionFails` | src/Goodtocode.Validation/RuleBuilder.cs:120-132 | `When(p, "M").NotEmpty()` on a name that is not null-or-white-space reports exactly "M" iff `p` fails |

## Left out

- Expression trees and reflection: selectors are plain functions. `typeof(TProp).IsEnum` and `Enum.IsDefined` become the builder's `PropType`, which records whether the type is an enum and its declared members.
- `Comparer<TProp>.Default`: kept as an abstract comparer, the builder's `compare` field. The fixture uses an integer-key comparer, which suffices for int and DateTime.
- `Convert.ToInt32` on enums: an enum is its underlying integer. The overflow exception for enums with wide underlying types is not modelled.
- IsEmpty: `Dbl` holds a finite real, so NaN (never empty, since `NaN != 0.0`) cannot be expressed. -0.0 coincides with 0.0, as it does under C#'s `!=`.
- Message formatting: templates are `Message` constructors. `Render` takes the value formatter `show` as a parameter; culture-specific formatting is not modelled.
- The Validator class (`Validate`, `ValidateAsync`, `ValidateAndThrow`, `ValidateAndThrowAsync`) is not part of this model. Only a sequential harness is given. Async execution and cancellation are concurrency plumbing.
- `ValidationResult` and `CustomValidationException` are not part of this model. The harness has a minimal result with `IsValid`. Grouping failures by property name is not modelled.
- `Must`: declared on `IRuleBuilder`, but `RuleBuilder` does not implement it, so there is no behaviour to model.
- `ValidationRule.cs`: an unused holder of delegates with no logic.
- Selector exceptions and ill-typed comparisons: these propagate as programming errors in the C# code and are outside the model.
- `RuleBuilder.When`, `RuleBuilder.WhenWithMessage`: a null condition is not modelled, because the C# parameter is declared non-nullable. In C#, `When(null)` would clear the gate and make every check of the builder run ungated again, and `When(null, message)` would register a complement rule that never fires.
- RuleBuilder.BoundChecksAgree: requires the comparer to be antisymmetric. The C# code relies on the framework comparer for this and does not check it.

/** The test entity and its validator, used as concrete fixtures: the rule
    chain of TestEntityValidator and the scenarios of ValidatorRuleTests,
    ValidatorAsyncTests and ValidatorExceptionTests, stated as lemmas over
    the sequential harness. Dates are tick counts; `today` is any day. */
module Fixtures {
  import opened Wrappers
  import opened Values
  import opened Failures
  import opened RuleBuilder
  import opened Validator

  datatype TestEntity = TestEntity(
    name: string,
    age: int,
    startDate: int,
    endDate: int,
    pageNumber: int,
    pageSize: int,
    status: int)

  /** TestEnum { None = 0, Active = 1, Inactive = 2 }. */
  const TestEnumMembers: set<int> := {0, 1, 2}
  const Active: int := 1

  /** DateTime.AddDays(1) in ticks. */
  const TicksPerDay: int := 864_000_000_000

  /** The default comparers of int and DateTime, which are the only property
      types the fixture compares: both order by the underlying integer. */
  function NumericKey(v: Value): int {
    match v
    case Int(i) => i
    case DateTime(t) => t
    case Enum(u) => u
    case _ => 0
  }

  function KeyCompare(a: Value, b: Value): (r: int)
    ensures r < 0 <==> NumericKey(a) < NumericKey(b)
    ensures r > 0 <==> NumericKey(a) > NumericKey(b)
  {
    if NumericKey(a) < NumericKey(b) then -1
    else if NumericKey(a) > NumericKey(b) then 1
    else 0
  }

  lemma KeyCompareAntisymmetric()
    ensures Antisymmetric(KeyCompare)
  {
  }

  function NameOf(e: TestEntity): Value { Str(e.name) }
  function AgeOf(e: TestEntity): Value { Int(e.age) }
  function StartOf(e: TestEntity): Value { DateTime(e.startDate) }
  function EndOf(e: TestEntity): Value { DateTime(e.endDate) }
  function PageNumberOf(e: TestEntity): Value { Int(e.pageNumber) }
  function PageSizeOf(e: TestEntity): Value { Int(e.pageSize) }
  function StatusOf(e: TestEntity): Value { Enum(e.status) }

  /** The constructor of TestEntityValidator: one builder per property, each
      with one check, registered in this order. */
  function TestEntityValidator(): (reg: Registry<TestEntity>)
    ensures reg.Valid() && |reg.rules| == 7 && |reg.builders| == 7
    ensures forall i :: 0 <= i < 7 ==> reg.rules[i].owner == i
  {
    var r := EmptyRegistry();
    var r := NotEmpty(RuleFor(r, "Name", NameOf, NonEnumType, KeyCompare), 0, None);
    var r := NotEqual(RuleFor(r, "Age", AgeOf, NonEnumType, KeyCompare), 1, Int(0), None);
    var r := LessThanOrEqualTo(RuleFor(r, "StartDate", StartOf, NonEnumType, KeyCompare), 2, EndOf, None);
    var r := GreaterThanOrEqualTo(RuleFor(r, "EndDate", EndOf, NonEnumType, KeyCompare), 3, StartOf, None);
    assert r.Valid() && |r.rules| == 4 && |r.builders| == 4;
    assert forall i :: 0 <= i < 4 ==> r.rules[i].owner == i;
    var r := NotEqual(RuleFor(r, "PageNumber", PageNumberOf, NonEnumType, KeyCompare), 4, Int(0), None);
    var r := NotEqual(RuleFor(r, "PageSize", PageSizeOf, NonEnumType, KeyCompare), 5, Int(0), None);
    var r := IsInEnum(RuleFor(r, "Status", StatusOf, EnumType(TestEnumMembers), KeyCompare), 6, None);
    r
  }

  /** The entity every test starts from, valid in every property. */
  function Good(today: int): TestEntity {
    TestEntity("John", 25, today, today + TicksPerDay, 1, 10, Active)
  }

  /** The outcome of each of the seven rules on an instance, one property
      at a time: the failure each reports, and exactly when. */
  lemma RuleOutcomes(x: TestEntity)
    ensures RuleOutcome(TestEntityValidator(), 0, x)
         == if WhiteSpaceOnly(x.name) then Some(Failure("Name", MustNotBeEmpty)) else None
    ensures RuleOutcome(TestEntityValidator(), 1, x)
         == if x.age == 0 then Some(Failure("Age", MustNotBeEqualTo(Int(0)))) else None
    ensures RuleOutcome(TestEntityValidator(), 2, x)
         == if x.startDate > x.endDate
            then Some(Failure("StartDate", MustBeAtMost(DateTime(x.endDate)))) else None
    ensures RuleOutcome(TestEntityValidator(), 3, x)
         == if x.endDate < x.startDate
            then Some(Failure("EndDate", MustBeAtLeast(DateTime(x.startDate)))) else None
    ensures RuleOutcome(TestEntityValidator(), 4, x)
         == if x.pageNumber == 0 then Some(Failure("PageNumber", MustNotBeEqualTo(Int(0)))) else None
    ensures RuleOutcome(TestEntityValidator(), 5, x)
         == if x.pageSize == 0 then Some(Failure("PageSize", MustNotBeEqualTo(Int(0)))) else None
    ensures RuleOutcome(TestEntityValidator(), 6, x)
         == if x.status in TestEnumMembers then None else Some(Failure("Status", MustBeValidEnum))
  {
  }

  /** The StartDate `≤ EndDate` rule and the EndDate `≥ StartDate` rule
      fail on the same instances, because the fixture's comparer is
      antisymmetric. */
  lemma DateRulesAgree(x: TestEntity)
    ensures RuleOutcome(TestEntityValidator(), 2, x).Some? <==> RuleOutcome(TestEntityValidator(), 3, x).Some?
  {
    var reg := TestEntityValidator();
    KeyCompareAntisymmetric();
    assert reg.rules[2].check == AtMost(reg.builders[3].selector, None);
    assert reg.rules[3].check == AtLeast(reg.builders[2].selector, None);
    BoundChecksAgree(reg.builders[2], reg.builders[3], None, None, x);
  }

  /** ValidateAllRulesPassReturnsValid, ValidateAsyncAllRulesPassReturnsValid. */
  lemma AllRulesPassReturnsValid(today: int)
    ensures Validate(TestEntityValidator(), Good(today)).IsValid()
    ensures |Validate(TestEntityValidator(), Good(today)).errors| == 0
  {
    RuleOutcomes(Good(today));
    assert !IsWhiteSpace("John"[0]);
  }

  /** The single-property failure scenarios: changing one property of the
      good entity makes exactly that property's rule fail, so the result is
      invalid and its one failure names that property. */
  lemma OneBadProperty(x: TestEntity, k: nat, property: string)
    requires k < 7
    requires RuleOutcome(TestEntityValidator(), k, x).Some?
    requires forall j :: 0 <= j < 7 && j != k ==> RuleOutcome(TestEntityValidator(), j, x).None?
    requires property == TestEntityValidator().builders[k].name
    ensures !Validate(TestEntityValidator(), x).IsValid()
    ensures |Validate(TestEntityValidator(), x).errors| == 1
    ensures Validate(TestEntityValidator(), x).errors[0].propertyName == property
  {
    SingleViolation(TestEntityValidator(), x, k);
  }

  /** ValidateNameEmptyReturnsInvalid. */
  lemma NameEmptyReturnsInvalid(today: int)
    ensures Validate(TestEntityValidator(), Good(today).(name := "")).errors
         == [Failure("Name", MustNotBeEmpty)]
  {
    var x := Good(today).(name := "");
    RuleOutcomes(x);
    OneBadProperty(x, 0, "Name");
  }

  /** ValidateAgeZeroReturnsInvalid. */
  lemma AgeZeroReturnsInvalid(today: int)
    ensures Validate(TestEntityValidator(), Good(today).(age := 0)).errors
         == [Failure("Age", MustNotBeEqualTo(Int(0)))]
  {
    var x := Good(today).(age := 0);
    RuleOutcomes(x);
    assert !IsWhiteSpace("John"[0]);
    OneBadProperty(x, 1, "Age");
  }

  /** The failure of rule k, when it fails, is among the reported errors. */
  lemma Reports(x: TestEntity, k: nat)
    requires k < 7 && RuleOutcome(TestEntityValidator(), k, x).Some?
    ensures !Validate(TestEntityValidator(), x).IsValid()
    ensures exists f :: f in Validate(TestEntityValidator(), x).errors
                        && f.propertyName == TestEntityValidator().builders[k].name
  {
    var f := RuleOutcome(TestEntityValidator(), k, x).value;
    assert f in Validate(TestEntityValidator(), x).errors;
  }

  /** ValidateStartDateGreaterThanEndDateReturnsInvalid: a start after the
      end fails the StartDate rule (and, symmetrically, the EndDate rule). */
  lemma StartAfterEndReturnsInvalid(today: int)
    ensures var x := Good(today).(startDate := today + 2 * TicksPerDay);
      && !Validate(TestEntityValidator(), x).IsValid()
      && (exists f :: f in Validate(TestEntityValidator(), x).errors && f.propertyName == "StartDate")
      && (exists f :: f in Validate(TestEntityValidator(), x).errors && f.propertyName == "EndDate")
  {
    var x := Good(today).(startDate := today + 2 * TicksPerDay);
    RuleOutcomes(x);
    Reports(x, 2);
    Reports(x, 3);
  }

  /** ValidateEndDateLessThanStartDateReturnsInvalid. */
  lemma EndBeforeStartReturnsInvalid(today: int)
    ensures var x := Good(today).(endDate := today - TicksPerDay);
      && !Validate(TestEntityValidator(), x).IsValid()
      && (exists f :: f in Validate(TestEntityValidator(), x).errors && f.propertyName == "EndDate")
  {
    var x := Good(today).(endDate := today - TicksPerDay);
    RuleOutcomes(x);
    Reports(x, 3);
  }

  /** ValidatePageNumberZeroReturnsInvalid. */
  lemma PageNumberZeroReturnsInvalid(today: int)
    ensures Validate(TestEntityValidator(), Good(today).(pageNumber := 0)).errors
         == [Failure("PageNumber", MustNotBeEqualTo(Int(0)))]
  {
    var x := Good(today).(pageNumber := 0);
    RuleOutcomes(x);
    assert !IsWhiteSpace("John"[0]);
    OneBadProperty(x, 4, "PageNumber");
  }

  /** ValidatePageSizeZeroReturnsInvalid. */
  lemma PageSizeZeroReturnsInvalid(today: int)
    ensures Validate(TestEntityValidator(), Good(today).(pageSize := 0)).errors
         == [Failure("PageSize", MustNotBeEqualTo(Int(0)))]
  {
    var x := Good(today).(pageSize := 0);
    RuleOutcomes(x);
    assert !IsWhiteSpace("John"[0]);
    OneBadProperty(x, 5, "PageSize");
  }

  /** ValidateStatusNotInEnumReturnsInvalid: the undeclared value 99. */
  lemma StatusNotInEnumReturnsInvalid(today: int)
    ensures Validate(TestEntityValidator(), Good(today).(status := 99)).errors
         == [Failure("Status", MustBeValidEnum)]
  {
    var x := Good(today).(status := 99);
    RuleOutcomes(x);
    assert !IsWhiteSpace("John"[0]);
    OneBadProperty(x, 6, "Status");
  }

  /** The entity of ValidateAndThrowInvalidThrowsCustomValidationException:
      the result is invalid (so the throwing entry point raises), and holds
      failures for Name, Age, PageNumber, PageSize and Status, in rule
      order, and none for the two dates. */
  lemma AllBadEntityFailsFiveProperties(today: int)
    ensures Validate(TestEntityValidator(), TestEntity("", 0, today, today + TicksPerDay, 0, 0, 99)).errors
         == [Failure("Name", MustNotBeEmpty),
             Failure("Age", MustNotBeEqualTo(Int(0))),
             Failure("PageNumber", MustNotBeEqualTo(Int(0))),
             Failure("PageSize", MustNotBeEqualTo(Int(0))),
             Failure("Status", MustBeValidEnum)]
  {
    var x := TestEntity("", 0, today, today + TicksPerDay, 0, 0, 99);
    var reg := TestEntityValidator();
    RuleOutcomes(x);
    assert WhiteSpaceOnly(x.name) && 99 !in TestEnumMembers;
    var os := Outcomes(reg, x);
    var f0, f1, f4, f5, f6 := os[0].value, os[1].value, os[4].value, os[5].value, os[6].value;
    var front, gap, back := os[..2], os[2..4], os[4..];
    assert os == front + gap + back;
    assert Collect(front) == [f0, f1] by {
      assert front[1..] == [Some(f1)] && front[1..][1..] == [];
      assert Collect(front[1..]) == [f1];
    }
    assert Collect(gap) == [] by {
      assert gap[1..] == [None] && gap[1..][1..] == [];
    }
    assert Collect(back) == [f4, f5, f6] by {
      var tail := back[1..];
      assert tail == [Some(f5), Some(f6)] && tail[1..] == [Some(f6)] && tail[1..][1..] == [];
      assert Collect(tail[1..]) == [f6];
      assert Collect(tail) == [f5, f6];
    }
    assert Collect(front + gap) == [f0, f1] by {
      CollectAppend(front, gap);
    }
    assert Collect(os) == [f0, f1, f4, f5, f6] by {
      CollectAppend(front + gap, back);
    }
  }

  /** `RuleFor(x => x.Name).NotEmpty().When(pred)`: the condition is set
      after the check was registered. */
  function LateGatedName(pred: TestEntity -> bool): (reg: Registry<TestEntity>)
    ensures reg.Valid() && |reg.rules| == 1
  {
    var r := RuleFor(EmptyRegistry(), "Name", NameOf, NonEnumType, KeyCompare);
    When(NotEmpty(r, 0, None), 0, pred)
  }

  /** Conditional gating: on an entity whose name is empty or white space, the NotEmpty
      failure appears exactly when the (later) condition holds. */
  lemma LateWhenGatesNotEmpty(pred: TestEntity -> bool, x: TestEntity)
    requires WhiteSpaceOnly(x.name)
    ensures Validate(LateGatedName(pred), x).errors
         == if pred(x) then [Failure("Name", MustNotBeEmpty)] else []
  {
    var os := Outcomes(LateGatedName(pred), x);
    assert os == [os[0]];
    assert os[1..] == [];
  }

  /** `RuleFor(x => x.Name).When(pred, "M").NotEmpty()`. */
  function MessageGatedName(pred: TestEntity -> bool): (reg: Registry<TestEntity>)
    ensures reg.Valid() && |reg.rules| == 2
  {
    var r := RuleFor(EmptyRegistry(), "Name", NameOf, NonEnumType, KeyCompare);
    NotEmpty(WhenWithMessage(r, 0, pred, Some("M")), 0, None)
  }

  /** Message-overload gating: with a name that is not white space only, the
      NotEmpty check passes, and the result holds the failure "M" exactly
      when the condition fails. */
  lemma MessageOverloadReportsWhenConditionFails(pred: TestEntity -> bool, x: TestEntity)
    requires !WhiteSpaceOnly(x.name)
    ensures Validate(MessageGatedName(pred), x).errors
         == if pred(x) then [] else [Failure("Name", Text("M"))]
  {
    var os := Outcomes(MessageGatedName(pred), x);
    assert os[1] == None;
    assert os[0] == if pred(x) then None else Some(Failure("Name", Text("M")));
    assert os == [os[0], None];
    assert os[1..] == [None];
    assert os[1..][1..] == [];
    assert Collect(os[1..]) == [];
    assert Validate(MessageGatedName(pred), x).errors == Collect(os);
  }
}

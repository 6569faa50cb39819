/** ValidationFailure: the (property name, message) pair every failing check
    yields. A message is either the caller's own text or one of the fixed
    default templates; `Render` spells a template out as RuleBuilder.cs
    interpolates it. */
module Failures {
  import opened Wrappers
  import opened Values

  datatype Message =
    | Text(text: string)              // a caller-supplied errorMessage, verbatim
    | MustNotBeEmpty                  // "{name} must not be empty"
    | MustNotBeEqualTo(other: Value)  // "{name} must not be equal to {other}"
    | MustBeAtMost(bound: Value)      // "{name} must be ≤ {other}"
    | MustBeAtLeast(bound: Value)     // "{name} must be ≥ {other}"
    | MustBeValidEnum                 // "{name} must be a valid enum value"
    | IsNotEnumType                   // "{name} is not an enum type"

  datatype Failure = Failure(propertyName: string, errorMessage: Message)

  /** `errorMessage ?? template`: the caller's text wins over the default. */
  function MessageOr(custom: Option<string>, template: Message): Message {
    match custom
    case Some(s) => Text(s)
    case None => template
  }

  /** The message string of a failure; `show` is how the property type
      formats a value inside an interpolated string. */
  function Render(f: Failure, show: Value -> string): (s: string)
    ensures f.errorMessage.Text? ==> s == f.errorMessage.text
    ensures !f.errorMessage.Text? ==>
      |f.propertyName| < |s| && s[..|f.propertyName|] == f.propertyName
  {
    var name := f.propertyName;
    var tail := match f.errorMessage
      case Text(_) => ""
      case MustNotBeEmpty => " must not be empty"
      case MustNotBeEqualTo(o) => " must not be equal to " + show(o)
      case MustBeAtMost(o) => " must be ≤ " + show(o)
      case MustBeAtLeast(o) => " must be ≥ " + show(o)
      case MustBeValidEnum => " must be a valid enum value"
      case IsNotEnumType => " is not an enum type";
    if f.errorMessage.Text? then f.errorMessage.text
    else
      assert (name + tail)[..|name|] == name;
      name + tail
  }
}

/** Property values as the rule builder sees them after a selector ran, and
    the two type-dependent policies it applies to them: the emptiness switch
    of NotEmpty and the three-way comparer of the comparison checks. */
module Values {

  /** A (boxed) property value, by the runtime kind the emptiness switch
      distinguishes. `Null` is a null reference or an empty nullable; a
      non-null string is `Str`. Integral kinds keep their value as `int`:
      no check does arithmetic on them. The overflow of `Convert.ToInt32`
      on an enum with a wide underlying type is not modelled. */
  datatype Value =
    | Null
    | Str(chars: string)
    | Int(i: int)              // System.Int32
    | Long(l: int)             // System.Int64
    | Dbl(d: real)             // System.Double (finite values)
    | Dec(m: real)             // System.Decimal
    | DateTime(ticks: int)     // System.DateTime, by its tick count
    | Guid(bits: nat)          // System.Guid, as a 128-bit number
    | Enum(underlying: int)    // an enumeration constant, by its underlying integral value
    | Short(s: int)            // System.Int16
    | Byte(b: int)             // System.Byte
    | Float(f: real)           // System.Single
    | Other(typeName: string, payload: int)  // any other type (bool, char, records, ...)

  /** DateTime.MinValue: tick count zero. */
  const MinTicks: int := 0

  /** Guid.Empty: the all-zero identifier. */
  const EmptyGuid: nat := 0

  /** The static property type `TProp` as far as IsInEnum asks about it:
      whether `typeof(TProp).IsEnum`, and if so which underlying values are
      declared members (what `Enum.IsDefined` consults). */
  datatype PropType = EnumType(members: set<int>) | NonEnumType

  /** Char.IsWhiteSpace: the Unicode space, line and paragraph separators
      (categories Zs, Zl, Zp) plus U+0009..U+000D and U+0085. */
  predicate IsWhiteSpace(c: char) {
    || ('\t' <= c <= '\r')
    || c == ' '
    || c == '\U{0085}'
    || c == '\U{00A0}'
    || c == '\U{1680}'
    || ('\U{2000}' <= c <= '\U{200A}')
    || c == '\U{2028}'
    || c == '\U{2029}'
    || c == '\U{202F}'
    || c == '\U{205F}'
    || c == '\U{3000}'
  }

  /** string.IsNullOrWhiteSpace for a non-null string: a front-to-back scan
      that stops at the first character that is not white space. */
  function WhiteSpaceOnly(s: string): (r: bool)
    ensures r <==> forall i :: 0 <= i < |s| ==> IsWhiteSpace(s[i])
    decreases |s|
  {
    |s| == 0 || (IsWhiteSpace(s[0]) && WhiteSpaceOnly(s[1..]))
  }

  /** The emptiness switch of NotEmpty: one arm per recognised kind, tried
      in the C# switch's order; every kind without an arm is never empty. The
      contract states the same policy as a closed table of empty values. */
  predicate IsEmpty(v: Value)
    ensures IsEmpty(v) <==>
      || v in {Null, Guid(EmptyGuid), Int(0), Long(0), Dbl(0.0), Dec(0.0), DateTime(MinTicks), Enum(0)}
      || (v.Str? && forall i :: 0 <= i < |v.chars| ==> IsWhiteSpace(v.chars[i]))
    ensures v.Short? || v.Byte? || v.Float? || v.Other? ==> !IsEmpty(v)
  {
    match v
    case Null => true
    case Guid(g) => g == EmptyGuid
    case Str(s) => WhiteSpaceOnly(s)
    case Int(i) => i == 0
    case Long(l) => l == 0
    case Dbl(d) => d == 0.0
    case Dec(m) => m == 0.0
    case DateTime(t) => t == MinTicks
    case Enum(u) => u == 0
    case _ => false
  }

  /** A three-way comparer (`Comparer<TProp>.Default.Compare`) is read only
      through the sign of its result. The property the comparison checks
      rely on: `a` is above `b` exactly when `b` is below `a`. */
  ghost predicate Antisymmetric(compare: (Value, Value) -> int) {
    forall a, b :: compare(a, b) > 0 <==> compare(b, a) < 0
  }
}

/**
 * The slice of the .NET type system the record codec relies on: which
 * property types it stores, their default values, how a value is turned
 * into text (ToString) and how text is turned back (Convert.ChangeType).
 */
module Clr {
  import opened Wrappers
  import opened Numerals
  import opened DateTimes

  /** Property types: the three value types BasicData uses, string, and any class. */
  datatype ClrType = Int64Type | BooleanType | DateTimeType | StringType | ClassType(name: string)

  /** A property's value; Null is the null reference, ObjectValue an instance of some class. */
  datatype ClrValue =
    | Null
    | LongValue(l: Long)
    | BoolValue(b: bool)
    | DateValue(d: ClrDateTime)
    | StringValue(s: string)
    | ObjectValue

  /** Type.IsPrimitive: long and bool are primitives, DateTime, string and classes are not. */
  predicate IsPrimitive(t: ClrType) {
    t.Int64Type? || t.BooleanType?
  }

  /** Type.IsValueType: the structs. */
  predicate IsValueType(t: ClrType) {
    t.Int64Type? || t.BooleanType? || t.DateTimeType?
  }

  /** Whether the codec stores a property of this type (ObjectExtensions.IsSupportedType). */
  predicate IsSupportedType(t: ClrType): (b: bool)
    ensures b <==> !t.ClassType?
  {
    IsPrimitive(t) || IsValueType(t) || t == StringType
  }

  /** String is the one supported type that is not a value type. */
  lemma SupportedTypes(t: ClrType)
    ensures IsSupportedType(t) && !IsValueType(t) ==> t == StringType
  {
  }

  /** A value a property of type `t` can hold; only reference types can be null. */
  predicate HasType(v: ClrValue, t: ClrType) {
    match t
    case Int64Type => v.LongValue?
    case BooleanType => v.BoolValue?
    case DateTimeType => v.DateValue?
    case StringType => v.Null? || v.StringValue?
    case ClassType(_) => v.Null? || v.ObjectValue?
  }

  /** The value a freshly created instance holds in a property of type `t`. */
  function Default(t: ClrType): (v: ClrValue)
    ensures HasType(v, t)
    ensures v == Null <==> !IsValueType(t)
  {
    match t
    case Int64Type => LongValue(0)
    case BooleanType => BoolValue(false)
    case DateTimeType => DateValue(MinValue)
    case StringType => Null
    case ClassType(_) => Null
  }

  /** A non-null value of a supported type, the only kind the codec writes out. */
  predicate Storable(v: ClrValue) {
    !v.Null? && !v.ObjectValue?
  }

  /** value.ToString() for the supported types. */
  function ToText(v: ClrValue): (r: string)
    requires Storable(v)
    ensures v.LongValue? ==> ParseLong(r) == Some(v.l)
    ensures v.BoolValue? ==> r == (if v.b then "True" else "False")
    ensures v.DateValue? ==> DateTimes.Parse(r) == Some(v.d)
    ensures v.StringValue? ==> r == v.s
  {
    match v
    case LongValue(l) => ParseFormatLong(l); FormatLong(l)
    case BoolValue(b) => if b then "True" else "False"
    case DateValue(d) => DateTimes.ParseFormat(d); DateTimes.Format(d)
    case StringValue(s) => s
  }

  function LowerAscii(c: char): char {
    if 'A' <= c <= 'Z' then (c as int + 32) as char else c
  }

  predicate EqualsIgnoreCase(s: string, t: string) {
    |s| == |t| && forall i :: 0 <= i < |s| ==> LowerAscii(s[i]) == LowerAscii(t[i])
  }

  /** Boolean.Parse: "true" or "false" in any letter case. */
  function ParseBool(s: string): (r: Option<bool>)
    ensures r == Some(true) <==> EqualsIgnoreCase(s, "true")
    ensures r == Some(false) <==> EqualsIgnoreCase(s, "false")
  {
    if EqualsIgnoreCase(s, "true") then Some(true)
    else if EqualsIgnoreCase(s, "false") then Some(false)
    else None
  }

  /**
   * Convert.ChangeType(text, t): parses the text into a value of the type;
   * None stands for the FormatException, OverflowException or
   * InvalidCastException it throws when it cannot.
   */
  function ChangeType(s: string, t: ClrType): (r: Option<ClrValue>)
    ensures r.Some? ==> HasType(r.value, t) && Storable(r.value)
    ensures t == StringType ==> r == Some(StringValue(s))
    ensures t.ClassType? ==> r.None?
    ensures t == Int64Type ==>
      (r.Some? <==> ParseLong(s).Some?) && (r.Some? ==> r.value == LongValue(ParseLong(s).value))
    ensures t == BooleanType ==>
      (r.Some? <==> ParseBool(s).Some?) && (r.Some? ==> r.value == BoolValue(ParseBool(s).value))
    ensures t == DateTimeType ==>
      (r.Some? <==> DateTimes.Parse(s).Some?) && (r.Some? ==> r.value == DateValue(DateTimes.Parse(s).value))
  {
    match t
    case Int64Type => (match ParseLong(s) case Some(l) => Some(LongValue(l)) case None => None)
    case BooleanType => (match ParseBool(s) case Some(b) => Some(BoolValue(b)) case None => None)
    case DateTimeType => (match DateTimes.Parse(s) case Some(d) => Some(DateValue(d)) case None => None)
    case StringType => Some(StringValue(s))
    case ClassType(_) => None
  }

  /** Converting a value's text back to its type gives the value again. */
  lemma ChangeTypeToText(v: ClrValue, t: ClrType)
    requires HasType(v, t) && Storable(v)
    ensures ChangeType(ToText(v), t) == Some(v)
  {
    match v
    case LongValue(l) => ParseFormatLong(l);
    case BoolValue(b) =>
      assert LowerAscii('T') == 't' && LowerAscii('F') == 'f';
      if b {
        assert !EqualsIgnoreCase("True", "false");
      }
    case DateValue(d) => ParseFormat(d);
    case StringValue(s) =>
  }
}

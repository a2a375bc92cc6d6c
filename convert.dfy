/**
 * Per-attribute conversion of a raw controller value into a typed reading.
 * Temperatures arrive as tenths of a degree Fahrenheit and leave as degrees
 * Celsius (exact reals here; the one-decimal rounding is not modelled).
 */
module Convert {
  import opened Wrappers
  import opened Text
  import opened Constants

  /** A stored reading: Python int, bool, float or str. */
  datatype Value = IntV(i: int) | BoolV(b: bool) | RealV(r: real) | StrV(s: string)

  /** (tenths / 10 - 32) * 5 / 9 */
  function Celsius(tenths: int): real {
    ((tenths as real) / 10.0 - 32.0) * 5.0 / 9.0
  }

  /** tenths / 10 * 5 / 9: an offset has no 32-degree shift. */
  function CelsiusOffset(tenths: int): real {
    (tenths as real) / 10.0 * 5.0 / 9.0
  }

  /** The independent inverse of the temperature formula: degrees Celsius back to tenths of a degree Fahrenheit. */
  function TenthsFahrenheit(celsius: real): real {
    (celsius * 9.0 / 5.0 + 32.0) * 10.0
  }

  /** `_convert_temperature`: absent for the sentinel and for text that is not an integer. */
  function ConvertTemperature(raw: string): (r: Option<real>)
    ensures r.None? <==> ParseInt(raw).None? || ParseInt(raw) == Some(Sentinel)
    ensures r.Some? ==> TenthsFahrenheit(r.value) == ParseInt(raw).value as real
  {
    match ParseInt(raw)
    case None => None
    case Some(n) => if n == Sentinel then None else Some(Celsius(n))
  }

  /** `_convert_temperature_offset`: absent for the sentinel and for text that is not an integer. */
  function ConvertTemperatureOffset(raw: string): (r: Option<real>)
    ensures r.None? <==> ParseInt(raw).None? || ParseInt(raw) == Some(Sentinel)
    ensures r.Some? ==> r.value * 18.0 == ParseInt(raw).value as real
  {
    match ParseInt(raw)
    case None => None
    case Some(n) => if n == Sentinel then None else Some(CelsiusOffset(n))
  }

  /** The offset formula is the difference of two temperatures. */
  lemma OffsetIsTemperatureDifference(a: int, b: int)
    ensures Celsius(a) - Celsius(b) == CelsiusOffset(a - b)
  {
  }

  /** 68.0 degrees Fahrenheit is 20.0 degrees Celsius. */
  lemma CelsiusFixture()
    ensures Celsius(680) == 20.0
  {
  }

  lemma CelsiusStrictlyIncreasing(a: int, b: int)
    ensures a < b <==> Celsius(a) < Celsius(b)
  {
  }

  /** The branches of `_convert_value`. */
  datatype Kind = IntKind | TemperatureKind | OffsetKind | TextKind | FlagKind

  const IntAttributes: seq<string> :=
    ["rh", "rh_setpoint", "head1_valve_pos_percent", "head2_valve_pos_percent"]
  const TemperatureAttributes: seq<string> :=
    ["maximum_floor_setpoint", "minimum_floor_setpoint", "external_temperature"]
  const OffsetAttribute: string := "eco_offset"
  const TextAttributes: seq<string> := ["sw_version", "thermostat_type", "hw_type"]

  function KindOf(attribute: string): Kind {
    if attribute in IntAttributes then IntKind
    else if attribute in TemperatureAttributes then TemperatureKind
    else if attribute == OffsetAttribute then OffsetKind
    else if attribute in TextAttributes then TextKind
    else FlagKind
  }

  /** Every attribute with a conversion of its own is a key of the attribute table. */
  lemma SpecialAttributesAreMapped()
    ensures forall a | a in IntAttributes || a in TemperatureAttributes || a in TextAttributes :: a in VariableMapping
    ensures OffsetAttribute in VariableMapping
  {
  }

  /**
   * `_convert_value`: `None` means "store nothing this cycle".
   */
  function ConvertValue(attribute: string, raw: string): (r: Option<Value>)
    // the absent marker is never stored, whatever the attribute, text attributes included
    ensures ParseInt(raw) == Some(Sentinel) ==> r.None?
    // otherwise only a numeric reading that is not an integer is dropped
    ensures r.None? ==> ParseInt(raw) == Some(Sentinel)
                        || (KindOf(attribute) in {IntKind, TemperatureKind, OffsetKind} && ParseInt(raw).None?)
    ensures r.Some? && KindOf(attribute) == IntKind ==> ParseInt(raw).Some? && r.value == IntV(ParseInt(raw).value)
    ensures r.Some? && KindOf(attribute) == TemperatureKind ==>
      ParseInt(raw).Some? && r.value.RealV? && TenthsFahrenheit(r.value.r) == ParseInt(raw).value as real
    ensures r.Some? && KindOf(attribute) == OffsetKind ==>
      ParseInt(raw).Some? && r.value.RealV? && r.value.r * 18.0 == ParseInt(raw).value as real
    ensures r.Some? && KindOf(attribute) == TextKind ==> r.value == StrV(raw)
    // any other attribute is a flag: nonzero is true, and unparseable text passes through
    ensures r.Some? && KindOf(attribute) == FlagKind ==>
      r.value == if ParseInt(raw).Some? then BoolV(ParseInt(raw).value != 0) else StrV(raw)
  {
    if ParseInt(raw) == Some(Sentinel) then None
    else
      match KindOf(attribute)
      case IntKind =>
        (match ParseInt(raw)
         case None => None
         case Some(n) => Some(IntV(n)))
      case TemperatureKind =>
        (match ConvertTemperature(raw)
         case None => None
         case Some(c) => Some(RealV(c)))
      case OffsetKind =>
        (match ConvertTemperatureOffset(raw)
         case None => None
         case Some(c) => Some(RealV(c)))
      case TextKind => Some(StrV(raw))
      case FlagKind =>
        (match ParseInt(raw)
         case None => Some(StrV(raw))
         case Some(n) => Some(BoolV(n != 0)))
  }

  /**
   * A reading behind one of the separator characters 28-31 is not a number to
   * `int()`: a text or flag attribute stores it as it came, sentinel digits included.
   */
  lemma SeparatorReadingKeptAsText(attribute: string, c: char, s: string)
    requires KindOf(attribute) == TextKind || KindOf(attribute) == FlagKind
    requires 28 <= c as int <= 31
    ensures ConvertValue(attribute, [c] + s) == Some(StrV([c] + s))
  {
    SeparatorNotSkipped(c, s);
  }
}

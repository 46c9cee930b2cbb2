/** The closed set of values a template can be given, and the errors that a
    render can raise. */
module Values {
  import opened Wrappers
  import Decimal

  /** C++ `int` on the platforms the engine targets. */
  type Int32 = x: int | -0x8000_0000 <= x <= 0x7fff_ffff

  /** The IEEE 754 single-precision bit pattern of a C++ `float`. */
  type Float32 = bv32

  /** Float-to-text conversion; its definition is not part of this model. */
  type FloatFormatter = Float32 -> string

  datatype Value =
    | IntV(i: Int32)
    | FloatV(f: Float32)
    | StrV(s: string)
    | StrListV(items: seq<string>)

  datatype RenderError =
    | AlreadyExists(name: string)      // a loop variable that is bound on entry
    | NotImplemented                   // rendering a string list directly
    | NotAStringList(name: string)     // a ForEach list name with no string list bound
    | SubstitutionError(message: string) // raised inside substitution

  /** The text form of a value. Strings render as themselves, integers as
      decimal text that reads back as the same integer, and a string list has
      no text form at all. */
  function RenderValue(v: Value, formatFloat: FloatFormatter): (r: Result<string, RenderError>)
    ensures r.Ok? <==> !v.StrListV?
    ensures v.StrListV? ==> r == Err(NotImplemented)
    ensures v.StrV? ==> r == Ok(v.s)
    ensures v.IntV? ==> r.Ok? && Decimal.ParseDecimal(r.value) == Some(v.i as int)
    ensures v.IntV? ==> Decimal.IsCanonicalInt(r.value)
  {
    match v
    case IntV(n) =>
      Decimal.ParseOfDecimal(n);
      Ok(Decimal.IntToDecimal(n))
    case FloatV(f) => Ok(formatFloat(f))
    case StrV(s) => Ok(s)
    case StrListV(_) => Err(NotImplemented)
  }
}

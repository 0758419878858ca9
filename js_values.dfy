/** The JavaScript values that a MongoDB document hands to the exporter, and the
    host-library operations the encoder calls but this model does not define. */
module JsValues {

  /** A JavaScript number: the 64 bits of an IEEE 754 binary64 value. */
  type Double = bv64

  const ExponentBits: Double := 0x7FF0_0000_0000_0000
  const FractionBits: Double := 0x000F_FFFF_FFFF_FFFF

  const PositiveInfinity: Double := 0x7FF0_0000_0000_0000
  const NegativeInfinity: Double := 0xFFF0_0000_0000_0000
  const QuietNaN: Double := 0x7FF8_0000_0000_0000
  const NegativeZero: Double := 0x8000_0000_0000_0000

  /** `Number.isFinite`: the exponent field is not all ones. Exactly NaN and the two
      infinities are not finite. */
  predicate IsFinite(d: Double)
    ensures !IsFinite(d) <==> IsNaN(d) || d == PositiveInfinity || d == NegativeInfinity
  {
    d & ExponentBits != ExponentBits
  }

  /** `Number.isNaN`: all-ones exponent and a non-zero fraction. */
  predicate IsNaN(d: Double) {
    d & ExponentBits == ExponentBits && d & FractionBits != 0
  }

  /** The number that reading a number's decimal text gives back: the text of -0 is "0". */
  function ReadBack(d: Double): (r: Double)
    ensures IsFinite(d) ==> IsFinite(r)
    ensures r != NegativeZero
  {
    if d == NegativeZero then 0 else d
  }

  /** Kinds of value whose `typeof` is none of the ones the encoder tests for. */
  datatype OpaqueKind = Undefined | Function | Symbol | BigInt

  /** A value found in a document, one constructor per runtime kind. Objects (and the
      document itself) are their own enumerable properties in `Object.entries` order. */
  datatype Source =
    | Num(d: Double)
    | Str(s: string)
    | Bool(b: bool)
    | Date(time: int)
    | Arr(elems: seq<Source>)
    | Null
    | Obj(fields: seq<(string, Source)>)
    | Opaque(kind: OpaqueKind)

  /** The `typeof` operator. Dates, arrays and `null` all answer "object". */
  function TypeOf(v: Source): (r: string)
    ensures r == "object" <==> v.Date? || v.Arr? || v.Null? || v.Obj?
    ensures r == "number" <==> v.Num?
    ensures r == "string" <==> v.Str?
    ensures r == "boolean" <==> v.Bool?
  {
    match v
    case Num(_) => "number"
    case Str(_) => "string"
    case Bool(_) => "boolean"
    case Date(_) => "object"
    case Arr(_) => "object"
    case Null => "object"
    case Obj(_) => "object"
    case Opaque(k) =>
      match k
      case Undefined => "undefined"
      case Function => "function"
      case Symbol => "symbol"
      case BigInt => "bigint"
  }

  /** `value instanceof Date`: a date is an object to `typeof`. */
  predicate IsDateInstance(v: Source)
    ensures IsDateInstance(v) ==> TypeOf(v) == "object"
  {
    v.Date?
  }

  /** `Array.isArray(value)`: an array is an object to `typeof`, and not a date. */
  predicate IsArray(v: Source)
    ensures IsArray(v) ==> TypeOf(v) == "object" && !IsDateInstance(v)
  {
    v.Arr?
  }

  /** `value === null`: `null` is an object to `typeof`, and neither a date nor an array. */
  predicate IsNull(v: Source)
    ensures IsNull(v) ==> TypeOf(v) == "object" && !IsDateInstance(v) && !IsArray(v)
  {
    v.Null?
  }

  /** The host operations the encoder and the repair pass call:
      `Number.prototype.toString`, `parseFloat`, `Date.prototype.toISOString`
      (on a time value in milliseconds) and `JSON.stringify` on a fallback value. */
  datatype Host = Host(
    numText: Double -> string,
    parseFloat: string -> Double,
    isoText: int -> string,
    jsonText: OpaqueKind -> string)

  /** What the ECMAScript standard guarantees of those operations and the model relies on:
      the text of a finite number is non-empty and reads back as the same number (-0 as 0);
      non-finite numbers print as "NaN", "Infinity" and "-Infinity", and parsing those three
      strings gives NaN, +Infinity and -Infinity. */
  ghost predicate Sound(h: Host) {
    && (forall d: Double :: IsFinite(d) ==> |h.numText(d)| > 0 && h.parseFloat(h.numText(d)) == ReadBack(d))
    && (forall d: Double :: IsNaN(d) ==> h.numText(d) == "NaN")
    && h.numText(PositiveInfinity) == "Infinity"
    && h.numText(NegativeInfinity) == "-Infinity"
    && IsNaN(h.parseFloat("NaN"))
    && h.parseFloat("Infinity") == PositiveInfinity
    && h.parseFloat("-Infinity") == NegativeInfinity
  }

  /** `Number.isFinite(parseFloat(text))`. */
  predicate ParsesFinite(h: Host, text: string) {
    IsFinite(h.parseFloat(text))
  }

  /** Under a sound host the text of every finite number parses back to a finite number. */
  lemma FiniteTextParsesFinite(h: Host, d: Double)
    requires Sound(h) && IsFinite(d)
    ensures |h.numText(d)| > 0 && ParsesFinite(h, h.numText(d))
  {
  }
}

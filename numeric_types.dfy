/**
 * The twelve numeric field types. Each is a `NumericPBFField` with its own
 * type letter and, for the integer types, an element check: the 32-bit types
 * bound their range, the 64-bit types ask for an integer (a non-negative one
 * for the unsigned types) and only warn above 2^53 - 1.
 *
 * As written, only int32 and sint32 attach their check to `validateValue`:
 * uint32, int64, uint64 and sint64 put it in `_validateValue`, which nothing
 * calls; sfixed32, fixed32 and fixed64 call `validateValueCore`, which does not
 * exist, so every validation ends in a TypeError; sfixed64 applies the integer
 * test to the whole value. `ValidateAsWritten` models that wiring; `Validate`,
 * which the field engine uses, runs every type's check on every element.
 */
module NumericTypes {
  import opened Wrappers
  import opened Numbers
  import opened Core

  datatype NumericKind = Double | Float | Int32 | UInt32 | SInt32 | SFixed32 | Fixed32 | Int64 | UInt64 | SInt64 | SFixed64 | Fixed64

  /** The type letter each constructor passes to `extendOptions`. */
  function Letter(k: NumericKind): (c: char)
    ensures IsLowerLetter(c)
  {
    match k
    case Double => 'd'
    case Float => 'f'
    case Int32 => 'i'
    case UInt32 => 'u'
    case SInt32 => 'n'
    case SFixed32 => 'g'
    case Fixed32 => 'x'
    case Int64 => 'j'
    case UInt64 => 'v'
    case SInt64 => 'o'
    case SFixed64 => 'h'
    case Fixed64 => 'y'
  }

  /** No two numeric types share a letter, so a token's letter names its type. */
  lemma LettersDistinct(a: NumericKind, b: NumericKind)
    requires a != b
    ensures Letter(a) != Letter(b)
  {
  }

  predicate InInt32Range(x: Num) {
    IsInteger(x) && -2147483648.0 <= x.r <= 2147483647.0
  }

  predicate InUInt32Range(x: Num) {
    IsInteger(x) && 0.0 <= x.r <= 4294967295.0
  }

  predicate Is64Bit(k: NumericKind) {
    k == Int64 || k == UInt64 || k == SInt64 || k == SFixed64 || k == Fixed64
  }

  /** The element check of each type's callback; double and float have none. */
  predicate ElementOk(k: NumericKind, x: Num) {
    match k
    case Double | Float => true
    case Int32 | SInt32 | SFixed32 => InInt32Range(x)
    case UInt32 | Fixed32 => InUInt32Range(x)
    case Int64 | SInt64 | SFixed64 => IsInteger(x)
    case UInt64 | Fixed64 => IsInteger(x) && x.r >= 0.0
  }

  /** The `console.warn` of the 64-bit types: an accepted value above `Number.MAX_SAFE_INTEGER`. */
  predicate Warns(k: NumericKind, x: Num) {
    Is64Bit(k) && ElementOk(k, x) && x.r > MaxSafeInteger as real
  }

  /**
   * `validateValue` with every type's check attached: the shape and required
   * checks, no NaN, and the type's check on every element.
   */
  function Validate(k: NumericKind, o: Options, actual: Stored<Num>): (r: Outcome<Error>)
    ensures r.Pass? <==> BaseCheck(o, actual).Pass? && forall i :: 0 <= i < |Elements(actual)| ==> Elements(actual)[i].Finite? && ElementOk(k, Elements(actual)[i])
    ensures r.Fail? ==> r.error in {ShapeMismatch, RequiredMissing, NaNValue, OutOfRange}
  {
    ValidateValueCore(o, actual, x => ElementOk(k, x))
  }

  /** How each type's check is attached to `validateValue` in the source. */
  datatype Wiring = Attached | NotAnOverride | MissingMethod | WholeValue

  function WiringAsWritten(k: NumericKind): Wiring {
    match k
    case Double | Float | Int32 | SInt32 => Attached
    case UInt32 | Int64 | UInt64 | SInt64 => NotAnOverride
    case SFixed32 | Fixed32 | Fixed64 => MissingMethod
    case SFixed64 => WholeValue
  }

  /** `validateValue` of each type as written. */
  function ValidateAsWritten(k: NumericKind, o: Options, actual: Stored<Num>): Outcome<Error> {
    match WiringAsWritten(k)
    case Attached => Validate(k, o, actual)
    case NotAnOverride => ValidateValueCore(o, actual, x => true)
    case MissingMethod => Fail(TypeError)
    case WholeValue =>
      match ValidateValueCore(o, actual, x => true)
      case Fail(e) => Fail(e)
      case Pass =>
        match actual
        case Absent => Pass
        case One(x) => if IsInteger(x) then Pass else Fail(OutOfRange)
        case Many(_) => Fail(OutOfRange)
  }

  /** For double, float, int32 and sint32 the source already behaves as `Validate`. */
  lemma AttachedAgrees(k: NumericKind, o: Options, actual: Stored<Num>)
    requires WiringAsWritten(k) == Attached
    ensures ValidateAsWritten(k, o, actual) == Validate(k, o, actual)
  {
  }

  /** The 32-bit ranges at their edges and just past them. */
  lemma RangeEdges()
    ensures ElementOk(Int32, FromInt(-2147483648)) && ElementOk(Int32, FromInt(2147483647))
    ensures !ElementOk(Int32, FromInt(2147483648)) && !ElementOk(Int32, FromInt(-2147483649)) && !ElementOk(Int32, FromInt(3147483648))
    ensures ElementOk(SFixed32, FromInt(-2147483648)) && ElementOk(SFixed32, FromInt(2147483647))
    ensures ElementOk(UInt32, FromInt(0)) && ElementOk(UInt32, FromInt(4294967295)) && ElementOk(UInt32, FromInt(3000000000))
    ensures !ElementOk(Fixed32, FromInt(-1)) && !ElementOk(Fixed32, FromInt(5000000000)) && !ElementOk(Fixed32, Finite(0.5))
    ensures !ElementOk(UInt64, FromInt(-1)) && ElementOk(Int64, FromInt(-1)) && !ElementOk(Int64, Finite(0.5))
    ensures Warns(Fixed64, FromInt(MaxSafeInteger + 1000000)) && !Warns(Int64, FromInt(-MaxSafeInteger - 1000000))
  {
  }

  /**
   * uint32, int64, uint64 and sint64 as written: their check never runs, so a
   * negative uint32 or a fraction for int64 passes.
   */
  lemma NotAnOverrideAcceptsBadValues(o: Options)
    requires !o.repeated
    ensures ValidateAsWritten(UInt32, o, One(FromInt(-1))) == Pass
    ensures Validate(UInt32, o, One(FromInt(-1))) == Fail(OutOfRange)
    ensures ValidateAsWritten(Int64, o, One(Finite(0.5))) == Pass
    ensures Validate(Int64, o, One(Finite(0.5))) == Fail(OutOfRange)
  {
    assert Elements(One(FromInt(-1)))[0] == FromInt(-1);
    assert Elements(One(Finite(0.5)))[0] == Finite(0.5);
  }

  /** sfixed32, fixed32 and fixed64 as written refuse every value, even 0. */
  lemma MissingMethodRejectsAll(o: Options, actual: Stored<Num>)
    ensures ValidateAsWritten(SFixed32, o, actual) == Fail(TypeError)
    ensures ValidateAsWritten(Fixed32, o, actual) == Fail(TypeError)
    ensures ValidateAsWritten(Fixed64, o, actual) == Fail(TypeError)
    ensures !o.repeated && !o.required ==> Validate(Fixed32, o, One(FromInt(0))) == Pass
  {
    if !o.repeated && !o.required {
      assert Elements(One(FromInt(0)))[0] == FromInt(0);
    }
  }

  /** sfixed64 as written refuses every list that passes the base checks, such as [1] on a repeated field. */
  lemma WholeValueRejectsLists(o: Options, xs: seq<Num>)
    requires o.repeated
    ensures ValidateAsWritten(SFixed64, o, Many(xs)) != Pass
    ensures (forall i :: 0 <= i < |xs| ==> IsInteger(xs[i])) ==> Validate(SFixed64, o, Many(xs)) == Pass
  {
  }
}

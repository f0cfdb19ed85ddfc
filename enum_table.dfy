/**
 * The code table of an enum field (letter `e`) and the rules of its value:
 * names are stored as their codes, codes are checked against the table, the
 * getter maps codes back to names, and `toArray` and `toUrl` always emit codes.
 */
module EnumTable {
  import opened Wrappers
  import opened Numbers
  import opened Core

  /** `PBFEnum`: one entry of the table. Codes are integers. */
  datatype EnumCode = EnumCode(code: int, name: string)

  /** An input of the setter: a number (a code) or a string (a name); anything else is refused. */
  datatype EnumInput = ByCode(c: Num) | ByName(n: string) | Other

  predicate CodeMatches(e: EnumCode, c: Num) {
    StrictEquals(FromInt(e.code), c)
  }

  /** Index of the first entry with code `c` (`find`), or |codes| when there is none. */
  function CodeIndex(codes: seq<EnumCode>, c: Num): (k: nat)
    ensures k <= |codes|
    ensures forall i :: 0 <= i < k ==> !CodeMatches(codes[i], c)
    ensures k < |codes| ==> CodeMatches(codes[k], c)
  {
    if codes == [] then 0 else if CodeMatches(codes[0], c) then 0 else 1 + CodeIndex(codes[1..], c)
  }

  /** Index of the first entry named `n`, or |codes| when there is none. */
  function NameIndex(codes: seq<EnumCode>, n: string): (k: nat)
    ensures k <= |codes|
    ensures forall i :: 0 <= i < k ==> codes[i].name != n
    ensures k < |codes| ==> codes[k].name == n
  {
    if codes == [] then 0 else if codes[0].name == n then 0 else 1 + NameIndex(codes[1..], n)
  }

  /** `lookupCode`: the name of the first entry with this code; None stands for the error it raises. */
  function LookupCode(codes: seq<EnumCode>, c: Num): (r: Option<string>)
    ensures r.Some? <==> exists i :: 0 <= i < |codes| && CodeMatches(codes[i], c)
    ensures r.Some? ==> r.value == codes[CodeIndex(codes, c)].name
  {
    var k := CodeIndex(codes, c);
    if k < |codes| then Some(codes[k].name) else None
  }

  /** `lookupValue`: the code of the first entry with this name; None stands for the error it raises. */
  function LookupName(codes: seq<EnumCode>, n: string): (r: Option<int>)
    ensures r.Some? <==> exists i :: 0 <= i < |codes| && codes[i].name == n
    ensures r.Some? ==> r.value == codes[NameIndex(codes, n)].code
  {
    var k := NameIndex(codes, n);
    if k < |codes| then Some(codes[k].code) else None
  }

  predicate DistinctCodes(codes: seq<EnumCode>) {
    forall i, j :: 0 <= i < j < |codes| ==> codes[i].code != codes[j].code
  }

  predicate DistinctNames(codes: seq<EnumCode>) {
    forall i, j :: 0 <= i < j < |codes| ==> codes[i].name != codes[j].name
  }

  lemma CodeIndexOf(codes: seq<EnumCode>, i: nat)
    requires DistinctCodes(codes) && i < |codes|
    ensures CodeIndex(codes, FromInt(codes[i].code)) == i
  {
  }

  lemma NameIndexOf(codes: seq<EnumCode>, i: nat)
    requires DistinctNames(codes) && i < |codes|
    ensures NameIndex(codes, codes[i].name) == i
  {
  }

  /** With distinct codes, the code of a name's entry looks the same name up. */
  lemma NameCodeName(codes: seq<EnumCode>, n: string)
    requires DistinctCodes(codes) && LookupName(codes, n).Some?
    ensures LookupCode(codes, FromInt(LookupName(codes, n).value)) == Some(n)
  {
    var k := NameIndex(codes, n);
    CodeIndexOf(codes, k);
  }

  /** With distinct names, the name of a code's entry looks the same code up. */
  lemma CodeNameCode(codes: seq<EnumCode>, c: Num)
    requires DistinctNames(codes) && LookupCode(codes, c).Some?
    ensures LookupName(codes, LookupCode(codes, c).value).Some?
    ensures FromInt(LookupName(codes, LookupCode(codes, c).value).value) == c
  {
    var k := CodeIndex(codes, c);
    NameIndexOf(codes, k);
  }

  /** `setValueCore`: a code is checked and kept, a name becomes its code. */
  function SetValueCore(codes: seq<EnumCode>, x: EnumInput): (r: Result<Num, Error>)
    ensures x.ByCode? ==> (r.Success? <==> LookupCode(codes, x.c).Some?)
    ensures x.ByCode? && r.Success? ==> r.value == x.c
    ensures x.ByName? ==> (r.Success? <==> LookupName(codes, x.n).Some?)
    ensures x.ByName? && r.Success? ==> r.value == FromInt(LookupName(codes, x.n).value)
    ensures x.Other? ==> r == Failure(InvalidEnumInput)
    ensures r.Success? ==> LookupCode(codes, r.value).Some?
  {
    match x
    case ByCode(c) => if LookupCode(codes, c).Some? then Success(c) else Failure(UnknownEnumCode)
    case ByName(n) =>
      (match LookupName(codes, n)
       case None => Failure(UnknownEnumName)
       case Some(code) =>
         assert CodeMatches(codes[NameIndex(codes, n)], FromInt(code));
         Success(FromInt(code)))
    case Other => Failure(InvalidEnumInput)
  }

  /** `setValueCore` on every element, stopping at the first error (`map`). */
  function SetValueCoreAll(codes: seq<EnumCode>, xs: seq<EnumInput>): (r: Result<seq<Num>, Error>)
    ensures r.Success? <==> forall i :: 0 <= i < |xs| ==> SetValueCore(codes, xs[i]).Success?
    ensures r.Success? ==> |r.value| == |xs| && forall i :: 0 <= i < |xs| ==> r.value[i] == SetValueCore(codes, xs[i]).value
  {
    if xs == [] then Success([])
    else
      match SetValueCore(codes, xs[0])
      case Failure(e) => Failure(e)
      case Success(c) =>
        match SetValueCoreAll(codes, xs[1..])
        case Failure(e) => Failure(e)
        case Success(cs) =>
          assert forall i :: 1 <= i < |xs| ==> xs[i] == xs[1..][i - 1];
          Success([c] + cs)
  }

  /**
   * The value setter: undefined clears; a list on a field that is not repeated
   * is refused; an empty list clears; a list is converted element by element;
   * a single input on a repeated field becomes a one-element list.
   */
  function SetValue(codes: seq<EnumCode>, repeated: bool, v: Stored<EnumInput>): (r: Result<Stored<Num>, Error>)
    ensures v.Absent? ==> r == Success(Absent)
    ensures v.Many? && !repeated ==> r == Failure(ShapeMismatch)
    ensures v.Many? && repeated && v.xs == [] ==> r == Success(Absent)
    ensures v.One? ==> (r.Success? <==> SetValueCore(codes, v.x).Success?)
    ensures v.One? && r.Success? ==> r.value == (if repeated then Many([SetValueCore(codes, v.x).value]) else One(SetValueCore(codes, v.x).value))
    ensures v.Many? && repeated && v.xs != [] ==> (r.Success? <==> SetValueCoreAll(codes, v.xs).Success?)
    ensures v.Many? && repeated && v.xs != [] && r.Success? ==> r.value == Many(SetValueCoreAll(codes, v.xs).value)
    ensures r.Success? && r.value != Absent ==> (r.value.Many? <==> repeated)
    ensures r.Success? ==> forall i :: 0 <= i < |Elements(r.value)| ==> LookupCode(codes, Elements(r.value)[i]).Some?
  {
    match v
    case Absent => Success(Absent)
    case Many(xs) =>
      if !repeated then Failure(ShapeMismatch)
      else if xs == [] then Success(Absent)
      else
        (match SetValueCoreAll(codes, xs)
         case Failure(e) => Failure(e)
         case Success(cs) => Success(Many(cs)))
    case One(x) =>
      match SetValueCore(codes, x)
      case Failure(e) => Failure(e)
      case Success(c) => if repeated then Success(Many([c])) else Success(One(c))
  }

  /** The names of stored codes, stopping at the first code not in the table. */
  function NamesOf(codes: seq<EnumCode>, cs: seq<Num>): (r: Option<seq<string>>)
    ensures r.Some? <==> forall i :: 0 <= i < |cs| ==> LookupCode(codes, cs[i]).Some?
    ensures r.Some? ==> |r.value| == |cs| && forall i :: 0 <= i < |cs| ==> r.value[i] == LookupCode(codes, cs[i]).value
  {
    if cs == [] then Some([])
    else
      match LookupCode(codes, cs[0])
      case None => None
      case Some(n) =>
        match NamesOf(codes, cs[1..])
        case None => None
        case Some(ns) =>
          assert forall i :: 1 <= i < |cs| ==> cs[i] == cs[1..][i - 1];
          Some([n] + ns)
  }

  /**
   * The value getter: a repeated field must hold a list (an undefined one is
   * an error) and gets the names of its codes; any other field must not hold a
   * list and gets the name of its code, or undefined.
   */
  function GetValue(codes: seq<EnumCode>, repeated: bool, stored: Stored<Num>): (r: Result<Stored<string>, Error>)
    ensures repeated && !stored.Many? ==> r.Failure?
    ensures !repeated && stored.Many? ==> r.Failure?
    ensures stored.Absent? && !repeated ==> r == Success(Absent)
  {
    if repeated then
      (match stored
       case Many(cs) =>
         (match NamesOf(codes, cs) case None => Failure(UnknownEnumCode) case Some(ns) => Success(Many(ns)))
       case _ => Failure(TypeError))
    else
      match stored
      case Many(_) => Failure(TypeError)
      case Absent => Success(Absent)
      case One(c) =>
        match LookupCode(codes, c) case None => Failure(UnknownEnumCode) case Some(n) => Success(One(n))
  }

  /**
   * `validateValue(value)`: a required field needs a value (the argument or the
   * stored one), and only the argument, not the stored value, is looked up.
   */
  function Validate(codes: seq<EnumCode>, required: bool, arg: Stored<Num>, stored: Stored<Num>): (r: Outcome<Error>)
    ensures r.Pass? <==> !(required && RealValue(arg, stored).Absent?) && (arg.One? ==> LookupCode(codes, arg.x).Some?) && !arg.Many?
  {
    if required && RealValue(arg, stored).Absent? then Fail(RequiredMissing)
    else
      match arg
      case Absent => Pass
      case One(c) => if LookupCode(codes, c).Some? then Pass else Fail(UnknownEnumCode)
      case Many(_) => Fail(UnknownEnumCode)
  }

  /**
   * Setting a name and reading the value back gives the name, as a one-element
   * list on a repeated field; setting a code gives that code's name.
   */
  lemma SetThenGet(codes: seq<EnumCode>, repeated: bool, x: EnumInput)
    requires DistinctCodes(codes)
    requires SetValue(codes, repeated, One(x)).Success?
    ensures x.ByName? ==> GetValue(codes, repeated, SetValue(codes, repeated, One(x)).value) == Success(if repeated then Many([x.n]) else One(x.n))
    ensures x.ByCode? ==> GetValue(codes, repeated, SetValue(codes, repeated, One(x)).value) == Success(if repeated then Many([LookupCode(codes, x.c).value]) else One(LookupCode(codes, x.c).value))
  {
    if x.ByName? {
      NameCodeName(codes, x.n);
    }
    var stored := SetValue(codes, repeated, One(x)).value;
    if repeated {
      var c := stored.xs[0];
      assert stored.xs == [c];
      assert [c][0] == c && [c][1..] == [];
      var n := LookupCode(codes, c).value;
      assert [n] + [] == [n];
      assert NamesOf(codes, [c]) == Some([n]);
      assert GetValue(codes, true, Many([c])) == Success(Many([LookupCode(codes, c).value]));
    }
  }

  lemma NameCodes(codes: seq<EnumCode>, names: seq<string>, xs: seq<EnumInput>)
    requires DistinctCodes(codes)
    requires forall i :: 0 <= i < |names| ==> LookupName(codes, names[i]).Some?
    requires |xs| == |names| && forall i :: 0 <= i < |xs| ==> xs[i] == ByName(names[i])
    ensures SetValueCoreAll(codes, xs).Success?
    ensures forall i :: 0 <= i < |xs| ==> LookupCode(codes, SetValueCoreAll(codes, xs).value[i]) == Some(names[i])
  {
    forall i | 0 <= i < |xs|
      ensures SetValueCore(codes, xs[i]).Success? && LookupCode(codes, SetValueCore(codes, xs[i]).value) == Some(names[i])
    {
      NameCodeName(codes, names[i]);
    }
  }

  lemma NamesOfAll(codes: seq<EnumCode>, cs: seq<Num>, names: seq<string>)
    requires |cs| == |names| && forall i :: 0 <= i < |cs| ==> LookupCode(codes, cs[i]) == Some(names[i])
    ensures NamesOf(codes, cs) == Some(names)
  {
    assert NamesOf(codes, cs).Some?;
    assert NamesOf(codes, cs).value == names;
  }

  /** A list of names is read back as the same list. */
  lemma SetThenGetList(codes: seq<EnumCode>, names: seq<string>)
    requires DistinctCodes(codes) && names != []
    requires forall i :: 0 <= i < |names| ==> LookupName(codes, names[i]).Some?
    ensures SetValue(codes, true, Many(seq(|names|, i requires 0 <= i < |names| => ByName(names[i])))).Success?
    ensures GetValue(codes, true, SetValue(codes, true, Many(seq(|names|, i requires 0 <= i < |names| => ByName(names[i])))).value) == Success(Many(names))
  {
    var xs := seq(|names|, i requires 0 <= i < |names| => ByName(names[i]));
    NameCodes(codes, names, xs);
    var cs := SetValueCoreAll(codes, xs).value;
    assert SetValue(codes, true, Many(xs)) == Success(Many(cs));
    NamesOfAll(codes, cs, names);
  }

  /**
   * The setter as written reads `this.options.repeated`, but an enum field
   * never assigns `this.options` (only `_options` is set, by the base
   * constructor), so every value other than undefined raises a TypeError.
   */
  function SetValueAsWritten(codes: seq<EnumCode>, v: Stored<EnumInput>): (r: Result<Stored<Num>, Error>)
    ensures v.Absent? <==> r.Success?
    ensures r.Success? ==> r.value.Absent?
  {
    if v.Absent? then Success(Absent) else Failure(TypeError)
  }

  /**
   * Setting "A" on a field whose only entry is 1 = "A": as written it raises,
   * although the name is known; read through `_options`, it stores code 1.
   */
  lemma OptionsUnsetCounterexample()
    ensures SetValueAsWritten([EnumCode(1, "A")], One(ByName("A"))) == Failure(TypeError)
    ensures SetValue([EnumCode(1, "A")], false, One(ByName("A"))) == Success(One(FromInt(1)))
  {
    assert LookupName([EnumCode(1, "A")], "A") == Some(1);
  }
}

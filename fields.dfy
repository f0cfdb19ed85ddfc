/**
 * The field engine on values. A `Node` is one field object: its kind (the
 * class it was built from), its options, the field number lock, its stored
 * value and, for a message, its named children in insertion order. Every
 * operation of the field classes is a function from the node before the call
 * to its result, or to the node after it (`Updated`) with the error that ended
 * the call, if any; the changes a message makes to its children before an
 * error stay made, as they do in the source.
 */
module Fields {
  import opened Wrappers
  import opened Numbers
  import opened Octets
  import opened Core
  import NumericTypes
  import EnumTable
  import BoolCodec
  import StringCodec
  import Base64StringCodec
  import Base64Util
  import Base64
  import Text

  /** The field classes; an enum carries its code table. */
  datatype Kind =
    | Numeric(numeric: NumericTypes.NumericKind)
    | Bool
    | Str
    | Base64Str
    | Bytes
    | Enum(codes: seq<EnumTable.EnumCode>)
    | Message
    | Reserved

  /** The type letter each class passes to `extendOptions`; bool and bytes share `b`. */
  function Letter(k: Kind): char {
    match k
    case Numeric(nk) => NumericTypes.Letter(nk)
    case Bool => 'b'
    case Str => 's'
    case Base64Str => 'z'
    case Bytes => 'b'
    case Enum(_) => 'e'
    case Message => 'm'
    case Reserved => '-'
  }

  /** One stored element: a number (an enum stores its codes as numbers), a boolean, a string or a byte array. */
  datatype Elem = NumE(n: Num) | BoolE(b: bool) | StrE(s: string) | BytesE(bytes: seq<byte>)

  /** The element type each class stores. */
  predicate Fits(k: Kind, e: Elem) {
    match k
    case Numeric(_) => e.NumE?
    case Enum(_) => e.NumE?
    case Bool => e.BoolE?
    case Str => e.StrE?
    case Base64Str => e.StrE?
    case Bytes => e.BytesE?
    case Message => false
    case Reserved => false
  }

  predicate AllFit(k: Kind, v: Stored<Elem>) {
    forall i :: 0 <= i < |Elements(v)| ==> Fits(k, Elements(v)[i])
  }

  /** A field object. A reserved field's `null` is `Absent` here; its kind tells it apart. */
  datatype Node = Node(kind: Kind, options: Options, locked: bool, value: Stored<Elem>, children: seq<Entry>)

  /** A named child of a message. */
  datatype Entry = Entry(name: string, field: Node)

  /** The node after a state-changing call, and whether the call raised an error. */
  datatype Updated = Updated(node: Node, outcome: Outcome<Error>)

  function MapStored<A, B>(v: Stored<A>, f: A -> B): (r: Stored<B>)
    ensures r.Absent? == v.Absent? && r.One? == v.One? && r.Many? == v.Many?
    ensures |Elements(r)| == |Elements(v)|
    ensures forall i :: 0 <= i < |Elements(v)| ==> Elements(r)[i] == f(Elements(v)[i])
  {
    match v
    case Absent => Absent
    case One(x) => One(f(x))
    case Many(xs) => Many(seq(|xs|, i requires 0 <= i < |xs| => f(xs[i])))
  }

  function NumOf(e: Elem): Num {
    if e.NumE? then e.n else NaN
  }

  function Nums(v: Stored<Elem>): Stored<Num> {
    MapStored(v, NumOf)
  }

  // ---------------------------------------------------------------- construction

  /**
   * The constructor of a scalar, bytes or reserved field: `extendOptions` with
   * the class's letter, then the field number check. A new field is locked and
   * holds no value.
   */
  function NewField(kind: Kind, options: Option<FieldOptions>): (r: Result<Node, Error>)
    requires !kind.Message? && !kind.Enum?
    ensures r.Success? <==> Construct(ExtendOptions(Letter(kind), options)).Success?
    ensures r.Success? ==> r.value.locked && r.value.value.Absent? && r.value.children == []
    ensures r.Success? ==> r.value.kind == kind && r.value.options == Construct(ExtendOptions(Letter(kind), options)).value
    ensures r.Success? ==> WellFormed(r.value)
  {
    match Construct(ExtendOptions(Letter(kind), options))
    case Failure(e) => Failure(e)
    case Success(o) => Success(Node(kind, o, true, Absent, []))
  }

  /** The enum constructor: the code table is split off and the other options are extended with `e`. */
  function NewEnum(codes: seq<EnumTable.EnumCode>, options: FieldOptions): (r: Result<Node, Error>)
    ensures r.Success? <==> Construct(ExtendOptions('e', Some(options))).Success?
    ensures r.Success? ==> r.value.locked && r.value.value.Absent? && r.value.kind == Enum(codes)
    ensures r.Success? ==> r.value.options.delimiter == options.delimiter.GetOr(DefaultDelimiter)
    ensures r.Success? ==> WellFormed(r.value)
  {
    match Construct(ExtendOptions('e', Some(options)))
    case Failure(e) => Failure(e)
    case Success(o) => Success(Node(Enum(codes), o, true, Absent, []))
  }

  /**
   * The message constructor: the field number is checked as for any field, and
   * the options the message then reads are the ones given (`this.options`, the
   * same record as `_options` here), so its delimiter is the one given or "!".
   */
  function NewMessage(options: Option<FieldOptions>, children: seq<Entry>): (r: Result<Node, Error>)
    ensures r.Success? <==> Construct(ExtendOptions('m', options)).Success?
    ensures r.Success? ==> r.value.kind == Message && r.value.locked && r.value.children == children
    ensures r.Success? ==> r.value.options.delimiter == (if options.Some? then options.value.delimiter.GetOr(DefaultDelimiter) else DefaultDelimiter)
    ensures r.Success? ==> r.value.options.fieldNumber == Construct(ExtendOptions('m', options)).value.fieldNumber
    ensures r.Success? && (forall i :: 0 <= i < |children| ==> WellFormed(children[i].field)) ==> WellFormed(r.value)
  {
    match Construct(ExtendOptions('m', options))
    case Failure(e) => Failure(e)
    case Success(o) =>
      var delimiter := if options.Some? then options.value.delimiter.GetOr(DefaultDelimiter) else DefaultDelimiter;
      Success(Node(Message, o.(delimiter := delimiter), true, Absent, children))
  }

  // ---------------------------------------------------------------- state

  /**
   * `isUndefined`: a message is undefined when every child is (so an empty one
   * is), a reserved field never is (it holds `null`), any other field when it
   * holds no value.
   */
  predicate IsUndefined(n: Node)
    decreases n
  {
    match n.kind
    case Message => forall i :: 0 <= i < |n.children| ==> IsUndefined(n.children[i].field)
    case Reserved => false
    case _ => n.value.Absent?
  }

  /** The children that are not undefined, in order (`valuesThatExist`). */
  function Present(cs: seq<Entry>): (r: seq<Entry>)
    ensures |r| <= |cs|
    ensures forall j :: 0 <= j < |r| ==> !IsUndefined(r[j].field)
  {
    if cs == [] then []
    else (if IsUndefined(cs[0].field) then [] else [cs[0]]) + Present(cs[1..])
  }

  /**
   * The shape every node reachable through the model's operations has: its
   * type letter, elements of its own type, a list only on a repeated field
   * and, for a value, a list exactly there; a message holds children only.
   */
  predicate WellFormed(n: Node)
    decreases n
  {
    n.options.fieldType == Letter(n.kind)
    && match n.kind
       case Message => n.value.Absent? && forall i :: 0 <= i < |n.children| ==> WellFormed(n.children[i].field)
       case Reserved => n.value.Absent? && n.children == []
       case _ => n.children == [] && AllFit(n.kind, n.value) && (!n.value.Absent? ==> (n.value.Many? <==> n.options.repeated))
  }

  // ---------------------------------------------------------------- validation

  /**
   * `validateValue(value)` of a field that is not a message: the argument, or
   * the stored value when the argument is undefined, is checked. Numeric types
   * run their element check, bool, string and bytes fields the shape and
   * required checks, an enum field the required check and a lookup of the
   * argument, and a reserved field accepts everything. A value of another
   * class's element type is refused.
   */
  function ValidateLeaf(n: Node, arg: Stored<Elem>): (r: Outcome<Error>)
    requires !n.kind.Message?
    ensures n.kind.Reserved? ==> r == Pass
    ensures n.kind.Numeric? ==> r == (if AllFit(n.kind, RealValue(arg, n.value)) then NumericTypes.Validate(n.kind.numeric, n.options, Nums(RealValue(arg, n.value))) else Fail(TypeError))
    ensures n.kind.Bool? || n.kind.Str? || n.kind.Base64Str? || n.kind.Bytes? ==>
      (r.Pass? <==> AllFit(n.kind, RealValue(arg, n.value)) && BaseCheck(n.options, RealValue(arg, n.value)).Pass?)
    ensures n.kind.Enum? ==> r == EnumTable.Validate(n.kind.codes, n.options.required, Nums(arg), Nums(n.value))
  {
    var actual := RealValue(arg, n.value);
    match n.kind
    case Reserved => Pass
    case Enum(codes) => EnumTable.Validate(codes, n.options.required, Nums(arg), Nums(n.value))
    case Numeric(nk) =>
      if !AllFit(n.kind, actual) then Fail(TypeError) else NumericTypes.Validate(nk, n.options, Nums(actual))
    case _ =>
      if !AllFit(n.kind, actual) then Fail(TypeError) else BaseCheck(n.options, actual)
  }

  /** JavaScript `new Set(numbers).size === numbers.length`. */
  predicate Distinct(numbers: seq<int>) {
    forall i, j :: 0 <= i < j < |numbers| ==> numbers[i] != numbers[j]
  }

  /**
   * `validateValue()` with no argument. A message is refused when it is
   * required and undefined; then each child is validated and its field number
   * read (an unset one is an error), in order, and the numbers must be distinct.
   */
  function Validate(n: Node): Outcome<Error>
    decreases n, |n.children| + 1
  {
    if !n.kind.Message? then ValidateLeaf(n, Absent)
    else if n.options.required && IsUndefined(n) then Fail(RequiredMissing)
    else ValidateChildren(n, 0, [])
  }

  function ValidateChildren(n: Node, i: nat, numbers: seq<int>): Outcome<Error>
    requires i <= |n.children|
    decreases n, |n.children| - i
  {
    if i == |n.children| then
      if Distinct(numbers) then Pass else Fail(DuplicateFieldNumbers)
    else
      var c := n.children[i].field;
      match Validate(c)
      case Fail(e) => Fail(e)
      case Pass =>
        match GetFieldNumber(c.options)
        case Failure(e) => Fail(e)
        case Success(fn) => ValidateChildren(n, i + 1, numbers + [fn])
  }

  /** The field numbers of the children, 0 for an unset one. */
  function FieldNumbers(cs: seq<Entry>): (r: seq<int>)
    ensures |r| == |cs|
    ensures forall j :: 0 <= j < |cs| ==> r[j] == NumberOf(cs[j].field)
  {
    seq(|cs|, j requires 0 <= j < |cs| => NumberOf(cs[j].field))
  }

  function NumberOf(n: Node): int {
    if n.options.fieldNumber.Some? then n.options.fieldNumber.value else 0
  }

  predicate ChildValid(e: Entry) {
    Validate(e.field) == Pass && e.field.options.fieldNumber.Some?
  }

  // ---------------------------------------------------------------- text encoding

  /**
   * `_encodeValue` of one element: a number's decimal text, a boolean's
   * `toString`, the string codec of the field's class, or the URL-safe base 64
   * of a byte array.
   */
  function EncodeElem(n: Node, e: Elem): Result<string, Error> {
    match e
    case NumE(x) => (match NumberText(x) case None => Failure(Unrendered) case Some(t) => Success(t))
    case BoolE(b) => Success(BoolCodec.Text(b))
    case StrE(s) => Success(if n.kind.Base64Str? then Base64StringCodec.Encode(s) else StringCodec.Encode(s, n.options.delimiter))
    case BytesE(b) => Success(Base64Util.ToBase64(b, true))
  }

  /**
   * `toUrl` (`urlEncode` for messages and reserved fields). A field that is not
   * a message: a repeated one is refused, then it is validated; no value gives
   * "", no field number the bare encoded value, otherwise the token. A message:
   * validated; no present child gives ""; otherwise the present children's
   * texts joined, preceded, when the message has a number, by the number of
   * those children and the message's own token head with letter `m`.
   */
  function ToUrl(n: Node): Result<string, Error>
    decreases n, |n.children| + 1
  {
    match n.kind
    case Reserved => Success("")
    case Message =>
      (match Validate(n)
       case Fail(e) => Failure(e)
       case Pass =>
         var count := |Present(n.children)|;
         if count == 0 then Success("")
         else
           match ChildrenToUrl(n, 0, "")
           case Failure(e) => Failure(e)
           case Success(body) =>
             var encoded := (if n.options.fieldNumber.Some? then NatToDecimal(count) else "") + body;
             if encoded == "" then Success("")
             else
               match n.options.fieldNumber
               case None => Success(encoded)
               case Some(fn) => Success(n.options.delimiter + NatToDecimal(fn) + "m" + encoded))
    case _ =>
      if n.options.repeated then Failure(RepeatedNotEncodable)
      else
        match Validate(n)
        case Fail(e) => Failure(e)
        case Pass =>
          match n.value
          case Absent => Success("")
          case Many(_) => Failure(ShapeMismatch)
          case One(x) =>
            match EncodeElem(n, x)
            case Failure(e) => Failure(e)
            case Success(encoded) =>
              match n.options.fieldNumber
              case None => Success(encoded)
              case Some(fn) => Success(TokenText(n.options, fn, encoded))
  }

  function ChildrenToUrl(n: Node, i: nat, acc: string): Result<string, Error>
    requires i <= |n.children|
    decreases n, |n.children| - i
  {
    if i == |n.children| then Success(acc)
    else
      var c := n.children[i].field;
      if IsUndefined(c) then ChildrenToUrl(n, i + 1, acc)
      else
        match ToUrl(c)
        case Failure(e) => Failure(e)
        case Success(t) => ChildrenToUrl(n, i + 1, acc + t)
  }

  /**
   * `toUrl` of a field that is not a message, as written; None is `undefined`.
   * An empty string value encodes to `undefined`, which a numbered field
   * renders as the text "undefined"; a numbered bytes field returns `undefined`
   * (the bare `return`); the URL-safe base 64 keeps all but its first `=`.
   */
  function LeafToUrlAsWritten(n: Node): Result<Option<string>, Error>
    requires !n.kind.Message?
  {
    if n.kind.Reserved? then Success(Some(""))
    else if n.options.repeated then Failure(RepeatedNotEncodable)
    else
      match Validate(n)
      case Fail(e) => Failure(e)
      case Pass =>
        match n.value
        case Absent => Success(Some(""))
        case Many(_) => Failure(ShapeMismatch)
        case One(x) =>
          if n.kind.Str? && x.StrE? then
            var encoded := StringCodec.EncodeAsWritten(x.s, n.options.delimiter);
            match n.options.fieldNumber
            case None => Success(encoded)
            case Some(fn) => Success(Some(TokenText(n.options, fn, StringCodec.Concatenated(encoded))))
          else if n.kind.Bytes? && x.BytesE? then
            match n.options.fieldNumber
            case None => Success(Some(Base64Util.ToBase64AsWritten(x.bytes, true)))
            case Some(_) => Success(None)
          else
            match ToUrl(n)
            case Failure(e) => Failure(e)
            case Success(t) => Success(Some(t))
  }

  // ---------------------------------------------------------------- array encoding

  /** A JSON-ready value: `undefined`, `null`, an array slot never written, a number, a boolean, a string, an array. */
  datatype Json = Undefined | Null | Hole | JNum(n: Num) | JBool(b: bool) | JStr(s: string) | JArr(items: seq<Json>)

  /** `toArray` of one element; bytes become padded standard base 64. */
  function ElemJson(e: Elem): Json {
    match e
    case NumE(x) => JNum(x)
    case BoolE(b) => JBool(b)
    case StrE(s) => JStr(s)
    case BytesE(b) => JStr(Base64Util.ToBase64(b, false))
  }

  function StoredJson(v: Stored<Elem>): (j: Json)
    ensures v.Absent? ==> j == Undefined
    ensures v.One? ==> j == ElemJson(v.x)
    ensures v.Many? ==> j == JArr(seq(|v.xs|, i requires 0 <= i < |v.xs| => ElemJson(v.xs[i])))
  {
    match v
    case Absent => Undefined
    case One(x) => ElemJson(x)
    case Many(xs) => JArr(seq(|xs|, i requires 0 <= i < |xs| => ElemJson(xs[i])))
  }

  function Holes(k: nat): (h: seq<Json>)
    ensures |h| == k && forall i :: 0 <= i < k ==> h[i] == Hole
  {
    seq(k, i => Hole)
  }

  /** `a[k] = v` on a JavaScript array: the slots between the old end and `k` stay holes. */
  function SetSlot(a: seq<Json>, k: nat, v: Json): (r: seq<Json>)
    ensures |r| == if k < |a| then |a| else k + 1
    ensures r[k] == v
    ensures forall i :: 0 <= i < |r| && i != k ==> r[i] == (if i < |a| then a[i] else Hole)
  {
    if k < |a| then a[k := v] else a + Holes(k - |a|) + [v]
  }

  /**
   * `toArray` (`arrayEncode` for messages, `jsonEncode` for reserved fields).
   * A scalar or enum field is validated and gives its value, `undefined` when
   * there is none; a bytes field with no value gives `undefined` before any
   * validation, otherwise padded base 64; a reserved field gives `null`; a
   * message is validated and writes each child's encoding at index
   * `fieldNumber - 1` of an array.
   */
  function ToArray(n: Node): Result<Json, Error>
    decreases n, |n.children| + 1
  {
    match n.kind
    case Reserved => Success(Null)
    case Message =>
      (match Validate(n)
       case Fail(e) => Failure(e)
       case Pass => ChildrenToArray(n, 0, []))
    case Bytes =>
      if n.value.Absent? then Success(Undefined)
      else
        (match Validate(n)
         case Fail(e) => Failure(e)
         case Pass => Success(StoredJson(n.value)))
    case _ =>
      match Validate(n)
      case Fail(e) => Failure(e)
      case Pass => Success(StoredJson(n.value))
  }

  function ChildrenToArray(n: Node, i: nat, acc: seq<Json>): Result<Json, Error>
    requires i <= |n.children|
    decreases n, |n.children| - i
  {
    if i == |n.children| then Success(JArr(acc))
    else
      var c := n.children[i].field;
      match GetFieldNumber(c.options)
      case Failure(e) => Failure(e)
      case Success(fn) =>
        match ToArray(c)
        case Failure(e) => Failure(e)
        case Success(j) => ChildrenToArray(n, i + 1, SetSlot(acc, fn - 1, j))
  }

  // ---------------------------------------------------------------- children by name

  /** Index of the child named `key`, or |cs| when there is none. */
  function KeyIndex(cs: seq<Entry>, key: string): (k: nat)
    ensures k <= |cs|
    ensures forall j :: 0 <= j < k ==> cs[j].name != key
    ensures k < |cs| ==> cs[k].name == key
  {
    if cs == [] then 0 else if cs[0].name == key then 0 else 1 + KeyIndex(cs[1..], key)
  }

  /** `this._value[key]`. */
  function Lookup(cs: seq<Entry>, key: string): (r: Option<Node>)
    ensures r.Some? <==> exists j :: 0 <= j < |cs| && cs[j].name == key
  {
    var k := KeyIndex(cs, key);
    if k < |cs| then Some(cs[k].field) else None
  }

  /** `this._value[key] = field`: an existing key keeps its place, a new one goes last. */
  function Put(cs: seq<Entry>, key: string, f: Node): seq<Entry> {
    var k := KeyIndex(cs, key);
    if k < |cs| then cs[k := Entry(key, f)] else cs + [Entry(key, f)]
  }

  // ---------------------------------------------------------------- value setter

  /** What a caller assigns to `value`: a value, or an object of named items (for a message). */
  datatype Input = Value(v: Stored<Elem>) | Fields(entries: seq<Assignment>)

  datatype Assignment = Assignment(key: string, item: Item)

  /** An item of an object assigned to a message: a field instance, or a plain value for the child of that name. */
  datatype Item = Instance(field: Node) | Plain(input: Input)

  /** An enum setter input: numbers are codes, strings are names. */
  function EnumInput(e: Elem): EnumTable.EnumInput {
    match e
    case NumE(c) => EnumTable.ByCode(c)
    case StrE(s) => EnumTable.ByName(s)
    case _ => EnumTable.Other
  }

  /**
   * The `value` setter. A scalar or bytes field validates the new value (the
   * stored one when the new one is undefined) and stores it, or raises and
   * keeps the old one. An enum field normalises the shape and converts names
   * to codes. A reserved field keeps `null`. A message clears every child for
   * undefined, and for an object goes through its entries in order: a field
   * instance replaces (or adds) the child of that name, a plain value is
   * assigned to the child of that name when there is one.
   */
  function SetValue(n: Node, input: Input): Updated
    decreases input, if input.Fields? then |input.entries| + 1 else 0
  {
    match n.kind
    case Message =>
      (match input
       case Fields(_) => AssignFrom(n, input, 0)
       case Value(v) =>
         if v.Absent? then Clear(n)
         else if v.One? && (v.x.NumE? || v.x.BoolE?) then Updated(n, Pass)
         else Updated(n, Fail(TypeError)))
    case Reserved => Updated(n, Pass)
    case Enum(codes) =>
      (match input
       case Fields(_) => Updated(n, Fail(TypeError))
       case Value(v) =>
         match EnumTable.SetValue(codes, n.options.repeated, MapStored(v, EnumInput))
         case Failure(e) => Updated(n, Fail(e))
         case Success(stored) => Updated(n.(value := MapStored(stored, (c: Num) => NumE(c))), Pass))
    case _ =>
      match input
      case Fields(_) => Updated(n, Fail(TypeError))
      case Value(v) =>
        match ValidateLeaf(n, v)
        case Fail(e) => Updated(n, Fail(e))
        case Pass => Updated(n.(value := v), Pass)
  }

  function AssignFrom(n: Node, input: Input, j: nat): Updated
    requires input.Fields? && j <= |input.entries|
    decreases input, |input.entries| - j
  {
    if j == |input.entries| then Updated(n, Pass)
    else
      var a := input.entries[j];
      match a.item
      case Instance(f) => AssignFrom(n.(children := Put(n.children, a.key, f)), input, j + 1)
      case Plain(inner) =>
        var k := KeyIndex(n.children, a.key);
        if k == |n.children| then AssignFrom(n, input, j + 1)
        else
          var u := SetValue(n.children[k].field, inner);
          var next := n.(children := n.children[k := Entry(a.key, u.node)]);
          if u.outcome.Fail? then Updated(next, u.outcome) else AssignFrom(next, input, j + 1)
  }

  /**
   * `value = undefined`. A scalar or bytes field validates its stored value
   * and then drops it; an enum field drops it; a reserved field keeps `null`;
   * a message clears its children in order and stops at the first error.
   */
  function Clear(n: Node): Updated {
    ClearWith(n, false)
  }

  /** `value = undefined` as written: a message ends in a TypeError once its children are cleared. */
  function ClearAsWritten(n: Node): Updated {
    ClearWith(n, true)
  }

  function ClearWith(n: Node, asWritten: bool): Updated
    decreases n, |n.children| + 1
  {
    match n.kind
    case Message =>
      var u := ClearChildren(n, 0, [], asWritten);
      if asWritten && u.outcome.Pass? then Updated(u.node, Fail(TypeError)) else u
    case Reserved => Updated(n, Pass)
    case Enum(_) => Updated(n.(value := Absent), Pass)
    case _ =>
      match ValidateLeaf(n, Absent)
      case Fail(e) => Updated(n, Fail(e))
      case Pass => Updated(n.(value := Absent), Pass)
  }

  function ClearChildren(n: Node, i: nat, done: seq<Entry>, asWritten: bool): Updated
    requires i <= |n.children|
    decreases n, |n.children| - i
  {
    if i == |n.children| then Updated(n.(children := done), Pass)
    else
      var u := ClearWith(n.children[i].field, asWritten);
      var done' := done + [n.children[i].(field := u.node)];
      if u.outcome.Fail? then Updated(n.(children := done' + n.children[i + 1..]), u.outcome)
      else ClearChildren(n, i + 1, done', asWritten)
  }

  // ---------------------------------------------------------------- delimiter, field number

  /**
   * The `delimiter` setter. A field that is not a message follows the rules of
   * every field. A message stores the given delimiter (undefined gives "!"),
   * unchecked, and passes it to each child in order, stopping at the first error.
   */
  function SetDelimiter(n: Node, d: Option<string>): Updated
    decreases n, |n.children| + 1
  {
    if n.kind.Message? then
      var actual := d.GetOr(DefaultDelimiter);
      DelimiterChildren(n, actual, 0, [])
    else
      match Core.SetDelimiter(n.options, d)
      case Failure(e) => Updated(n, Fail(e))
      case Success(o) => Updated(n.(options := o), Pass)
  }

  function DelimiterChildren(n: Node, d: string, i: nat, done: seq<Entry>): Updated
    requires i <= |n.children|
    decreases n, |n.children| - i
  {
    var head := n.(options := n.options.(delimiter := d));
    if i == |n.children| then Updated(head.(children := done), Pass)
    else
      var u := SetDelimiter(n.children[i].field, Some(d));
      var done' := done + [n.children[i].(field := u.node)];
      if u.outcome.Fail? then Updated(head.(children := done' + n.children[i + 1..]), u.outcome)
      else DelimiterChildren(n, d, i + 1, done')
  }

  /** The `fieldNumber` setter, the same for every class. */
  function SetFieldNumber(n: Node, x: Num): (r: Updated)
    ensures n.locked ==> r == Updated(n, Fail(FieldNumberLocked))
    ensures r.outcome.Pass? <==> !n.locked && IsInteger(x) && x.r >= 1.0
    ensures r.outcome.Pass? ==> r.node.options.fieldNumber.Some? && FromInt(r.node.options.fieldNumber.value) == x
    ensures r.outcome.Pass? ==> r.node == n.(options := n.options.(fieldNumber := r.node.options.fieldNumber))
    ensures r.outcome.Fail? ==> r.node == n
  {
    match Core.SetFieldNumber(n.options, n.locked, x)
    case Failure(e) => Updated(n, Fail(e))
    case Success(o) => Updated(n.(options := o), Pass)
  }

  // ---------------------------------------------------------------- decoding

  /** `_decodeValue` of a scalar class; None is the error it raises. */
  function DecodeText(n: Node, text: string): Result<Stored<Elem>, Error> {
    match n.kind
    case Numeric(_) => Success(match DecodeNumber(text) case None => Absent case Some(x) => One(NumE(x)))
    case Bool => Success(match BoolCodec.Decode(text) case None => Absent case Some(b) => One(BoolE(b)))
    case Str => DecodeStrText(text, n.options.delimiter)
    case Base64Str => DecodeBase64StrText(text)
    case Bytes => DecodeBytesText(text)
    case _ => Failure(TypeError)
  }

  function DecodeStrText(text: string, delimiter: string): Result<Stored<Elem>, Error> {
    match StringCodec.Decode(text, delimiter)
    case None => Failure(UriError)
    case Some(s) => Success(One(StrE(s)))
  }

  function DecodeBase64StrText(text: string): Result<Stored<Elem>, Error> {
    match Base64StringCodec.Decode(text)
    case None => Failure(Base64Error)
    case Some(s) => Success(One(StrE(s)))
  }

  function DecodeBytesText(text: string): Result<Stored<Elem>, Error> {
    match Base64Util.Base64ToUint8Array(text, true)
    case None => Failure(Base64Error)
    case Some(b) => Success(One(BytesE(b)))
  }

  /**
   * `fromUrl`. A repeated field is refused (an enum field also when it holds a
   * list). A scalar field: undefined or "" drops the value; anything else goes
   * through `_parseUrlCore` (which may adopt a field number), is decoded and
   * assigned through the setter. A bytes field drops the value on "" and goes
   * on decoding, so "" ends as an empty byte array. An enum field drops the
   * value on "" and goes on, reads the text with `Number`, checks the code and
   * stores it. Neither a message nor a reserved field has this method.
   */
  function FromUrl(n: Node, text: Option<string>): Updated {
    match n.kind
    case Message => Updated(n, Fail(TypeError))
    case Reserved => Updated(n, Fail(TypeError))
    case Enum(_) => EnumFromUrl(n, text)
    case Bytes => BytesFromUrl(n, text)
    case _ => ScalarFromUrl(n, text)
  }

  predicate EmptyText(text: Option<string>) {
    text.None? || text.value == ""
  }

  /** `fromUrl` of an enum field. */
  function EnumFromUrl(n: Node, text: Option<string>): Updated
    requires n.kind.Enum?
  {
    if n.options.repeated || n.value.Many? then Updated(n, Fail(RepeatedNotEncodable))
    else
      var cleared := if EmptyText(text) then n.(value := Absent) else n;
      var p := ParseUrlCore(cleared.options, text);
      var parsed := cleared.(options := p.options);
      match p.result
      case Failure(e) => Updated(parsed, Fail(e))
      case Success(t) =>
        var code := StringToNumber(t);
        match ValidateLeaf(parsed, One(NumE(code)))
        case Fail(e) => Updated(parsed, Fail(e))
        case Pass => Updated(parsed.(value := One(NumE(code))), Pass)
  }

  /** `fromUrl` of a bytes field. */
  function BytesFromUrl(n: Node, text: Option<string>): Updated {
    if n.options.repeated then Updated(n, Fail(RepeatedNotEncodable))
    else
      var cleared := if EmptyText(text) then n.(value := Absent) else n;
      var p := ParseUrlCore(cleared.options, text);
      var parsed := cleared.(options := p.options);
      match p.result
      case Failure(e) => Updated(parsed, Fail(e))
      case Success(t) =>
        match DecodeText(parsed, t)
        case Failure(e) => Updated(parsed, Fail(e))
        case Success(v) => SetValue(parsed, Value(v))
  }

  /** `fromUrl` of a number, bool, string or base64-string field. */
  function ScalarFromUrl(n: Node, text: Option<string>): Updated {
    if n.options.repeated then Updated(n, Fail(RepeatedNotEncodable))
    else if EmptyText(text) then Updated(n.(value := Absent), Pass)
    else
      var p := ParseUrlCore(n.options, text);
      var parsed := n.(options := p.options);
      match p.result
      case Failure(e) => Updated(parsed, Fail(e))
      case Success(t) =>
        match DecodeText(parsed, t)
        case Failure(e) => Updated(parsed, Fail(e))
        case Success(v) => SetValue(parsed, Value(v))
  }

  /** `base64ToUint8Array(text)` on each string of a bytes field's array form. */
  function DecodeBase64(v: Stored<Elem>): Result<Stored<Elem>, Error> {
    match v
    case Absent => Success(Absent)
    case One(x) =>
      if !x.StrE? then Failure(TypeError)
      else
        (match Base64Util.Base64ToUint8Array(x.s, false)
         case None => Failure(Base64Error)
         case Some(b) => Success(One(BytesE(b))))
    case Many(xs) =>
      match DecodeBase64All(xs)
      case Failure(e) => Failure(e)
      case Success(bs) => Success(Many(bs))
  }

  function DecodeBase64All(xs: seq<Elem>): Result<seq<Elem>, Error> {
    if xs == [] then Success([])
    else if !xs[0].StrE? then Failure(TypeError)
    else
      match Base64Util.Base64ToUint8Array(xs[0].s, false)
      case None => Failure(Base64Error)
      case Some(b) =>
        match DecodeBase64All(xs[1..])
        case Failure(e) => Failure(e)
        case Success(bs) => Success([BytesE(b)] + bs)
  }

  /**
   * `fromArray`: the setter for scalar and enum fields; a bytes field ignores
   * undefined and decodes standard base 64 strings before the setter; neither a
   * message nor a reserved field has this method.
   */
  function FromArray(n: Node, v: Stored<Elem>): Updated {
    match n.kind
    case Message => Updated(n, Fail(TypeError))
    case Reserved => Updated(n, Fail(TypeError))
    case Bytes =>
      if v.Absent? then Updated(n, Pass)
      else
        (match DecodeBase64(v)
         case Failure(e) => Updated(n, Fail(e))
         case Success(b) => SetValue(n, Value(b)))
    case _ => SetValue(n, Value(v))
  }

  // ---------------------------------------------------------------- value getter

  /** What the `value` getter returns: a stored value, `null`, or a record of the children's values. */
  datatype Out = Scalar(v: Stored<Elem>) | NullOut | Record(fields: seq<Named>)

  datatype Named = Named(name: string, value: Out)

  /**
   * The `value` getter: a scalar or bytes field's stored value; an enum
   * field's names; `null` for a reserved field; for a message the record of
   * every child's value under the child's name.
   */
  function ValueOf(n: Node): Result<Out, Error>
    decreases n, |n.children| + 1
  {
    match n.kind
    case Message => ValuesOf(n, 0, [])
    case Reserved => Success(NullOut)
    case Enum(codes) =>
      (match EnumTable.GetValue(codes, n.options.repeated, Nums(n.value))
       case Failure(e) => Failure(e)
       case Success(names) => Success(Scalar(MapStored(names, (s: string) => StrE(s)))))
    case _ => Success(Scalar(n.value))
  }

  function ValuesOf(n: Node, i: nat, acc: seq<Named>): Result<Out, Error>
    requires i <= |n.children|
    decreases n, |n.children| - i
  {
    if i == |n.children| then Success(Record(acc))
    else
      match ValueOf(n.children[i].field)
      case Failure(e) => Failure(e)
      case Success(o) => ValuesOf(n, i + 1, acc + [Named(n.children[i].name, o)])
  }

  // ---------------------------------------------------------------- message properties

  lemma {:induction false} ValidateChildrenSpec(n: Node, i: nat, numbers: seq<int>)
    requires i <= |n.children|
    requires numbers == FieldNumbers(n.children[..i])
    ensures ValidateChildren(n, i, numbers) == Pass <==>
      (forall j :: i <= j < |n.children| ==> ChildValid(n.children[j])) && Distinct(FieldNumbers(n.children))
    decreases |n.children| - i
  {
    var cs := n.children;
    if i == |cs| {
      assert cs[..i] == cs;
    } else {
      var c := cs[i].field;
      if Validate(c) == Pass && c.options.fieldNumber.Some? {
        assert FieldNumbers(cs[..i + 1]) == numbers + [c.options.fieldNumber.value];
        ValidateChildrenSpec(n, i + 1, numbers + [c.options.fieldNumber.value]);
      } else {
        assert !ChildValid(cs[i]);
      }
    }
  }

  /**
   * A message validates exactly when it is not a required message that is
   * undefined, every child validates and has a field number, and the children's
   * numbers are distinct, whether the children are present or not.
   */
  lemma ValidateMessage(n: Node)
    requires n.kind.Message?
    ensures Validate(n) == Pass <==>
      !(n.options.required && IsUndefined(n))
      && (forall j :: 0 <= j < |n.children| ==> ChildValid(n.children[j]))
      && Distinct(FieldNumbers(n.children))
  {
    if !(n.options.required && IsUndefined(n)) {
      assert n.children[..0] == [];
      ValidateChildrenSpec(n, 0, []);
    }
  }

  lemma {:induction false} PresentEmpty(cs: seq<Entry>)
    ensures |Present(cs)| == 0 <==> forall j :: 0 <= j < |cs| ==> IsUndefined(cs[j].field)
  {
    if cs != [] {
      PresentEmpty(cs[1..]);
      assert forall j :: 1 <= j < |cs| ==> cs[j] == cs[1..][j - 1];
    }
  }

  /** A message is undefined exactly when none of its children is present. */
  lemma UndefinedMessage(n: Node)
    requires n.kind.Message?
    ensures IsUndefined(n) <==> |Present(n.children)| == 0
  {
    PresentEmpty(n.children);
  }

  /** The texts of the children, joined. */
  function Join(ts: seq<string>): string {
    if ts == [] then "" else ts[0] + Join(ts[1..])
  }

  lemma {:induction false} ChildrenToUrlJoin(n: Node, i: nat, acc: string, ts: seq<string>)
    requires i <= |n.children|
    requires |ts| == |Present(n.children[i..])|
    requires forall j :: 0 <= j < |ts| ==> ToUrl(Present(n.children[i..])[j].field) == Success(ts[j])
    ensures ChildrenToUrl(n, i, acc) == Success(acc + Join(ts))
    decreases |n.children| - i
  {
    var cs := n.children;
    if i == |cs| {
      assert cs[i..] == [] && Present([]) == [];
      assert ts == [] && acc + "" == acc;
    } else {
      var rest := cs[i..];
      assert rest[0] == cs[i] && rest[1..] == cs[i + 1..];
      var c := cs[i].field;
      if IsUndefined(c) {
        assert Present(rest) == Present(cs[i + 1..]);
        ChildrenToUrlJoin(n, i + 1, acc, ts);
      } else {
        assert Present(rest) == [cs[i]] + Present(cs[i + 1..]);
        assert ToUrl(c) == Success(ts[0]);
        assert Present(rest)[1..] == Present(cs[i + 1..]);
        ChildrenToUrlJoin(n, i + 1, acc + ts[0], ts[1..]);
        assert acc + ts[0] + Join(ts[1..]) == acc + Join(ts);
      }
    }
  }

  /**
   * The text of a valid message whose present children encode to `ts`: ""
   * when none is present; the joined texts when it has no field number;
   * otherwise delimiter, number, `m`, the count of present immediate children
   * and the joined texts.
   */
  lemma MessageUrl(n: Node, ts: seq<string>)
    requires n.kind.Message? && Validate(n) == Pass
    requires |ts| == |Present(n.children)|
    requires forall j :: 0 <= j < |ts| ==> ToUrl(Present(n.children)[j].field) == Success(ts[j])
    ensures ts == [] ==> ToUrl(n) == Success("")
    ensures ts != [] && n.options.fieldNumber.Some? ==>
      ToUrl(n) == Success(n.options.delimiter + NatToDecimal(n.options.fieldNumber.value) + "m" + NatToDecimal(|ts|) + Join(ts))
    ensures n.options.fieldNumber.None? ==> ToUrl(n) == Success(Join(ts))
  {
    assert n.children[0..] == n.children;
    ChildrenToUrlJoin(n, 0, "", ts);
    assert "" + Join(ts) == Join(ts);
    if ts != [] && n.options.fieldNumber.Some? {
      var fn := n.options.fieldNumber.value;
      assert n.options.delimiter + NatToDecimal(fn) + "m" + (NatToDecimal(|ts|) + Join(ts))
        == n.options.delimiter + NatToDecimal(fn) + "m" + NatToDecimal(|ts|) + Join(ts);
    }
  }

  /** The largest number in `s`, 0 for none. */
  function MaxOf(s: seq<int>): (m: int)
    ensures m >= 0
    ensures forall j :: 0 <= j < |s| ==> s[j] <= m
  {
    if s == [] then 0
    else
      var m := MaxOf(s[..|s| - 1]);
      assert forall j :: 0 <= j < |s| - 1 ==> s[j] == s[..|s| - 1][j];
      if s[|s| - 1] > m then s[|s| - 1] else m
  }

  /** Slot `f - 1` of `a` holds the encoding of the child numbered `f`, every other slot below the largest number is a hole. */
  predicate Slots(a: seq<Json>, ns: seq<int>, js: seq<Json>)
    requires |ns| == |js|
  {
    |a| == MaxOf(ns)
    && (forall j :: 0 <= j < |ns| ==> 1 <= ns[j] && a[ns[j] - 1] == js[j])
    && (forall k :: 0 <= k < |a| && (k + 1) !in ns ==> a[k] == Hole)
  }

  lemma MaxOfSnoc(s: seq<int>, f: int)
    ensures MaxOf(s + [f]) == if f > MaxOf(s) then f else MaxOf(s)
  {
    assert (s + [f])[..|s|] == s;
  }

  lemma SlotsStep(a: seq<Json>, ns: seq<int>, js: seq<Json>, f: int, v: Json)
    requires |ns| == |js| && Slots(a, ns, js)
    requires f >= 1 && f !in ns
    ensures Slots(SetSlot(a, f - 1, v), ns + [f], js + [v])
  {
    MaxOfSnoc(ns, f);
    SlotsStepFilled(a, ns, js, f, v);
    SlotsStepHoles(a, ns, f, v, SetSlot(a, f - 1, v));
  }

  lemma SlotsStepFilled(a: seq<Json>, ns: seq<int>, js: seq<Json>, f: int, v: Json)
    requires |ns| == |js| && |a| == MaxOf(ns)
    requires forall j :: 0 <= j < |ns| ==> 1 <= ns[j] && a[ns[j] - 1] == js[j]
    requires f >= 1 && f !in ns
    ensures forall j :: 0 <= j < |ns| + 1 ==> 1 <= (ns + [f])[j] && SetSlot(a, f - 1, v)[(ns + [f])[j] - 1] == (js + [v])[j]
  {
    var ns', js', a' := ns + [f], js + [v], SetSlot(a, f - 1, v);
    forall j | 0 <= j < |ns'|
      ensures 1 <= ns'[j] && a'[ns'[j] - 1] == js'[j]
    {
      if j < |ns| {
        assert ns'[j] == ns[j] && ns[j] != f && js'[j] == js[j];
      }
    }
  }

  lemma SlotsStepHoles(a: seq<Json>, ns: seq<int>, f: int, v: Json, a': seq<Json>)
    requires |a| == MaxOf(ns)
    requires forall k :: 0 <= k < |a| && (k + 1) !in ns ==> a[k] == Hole
    requires f >= 1 && a' == SetSlot(a, f - 1, v)
    ensures forall k :: 0 <= k < |a'| && (k + 1) !in ns + [f] ==> a'[k] == Hole
  {
    forall k | 0 <= k < |a'| && (k + 1) !in ns + [f]
      ensures a'[k] == Hole
    {
      assert k + 1 !in ns && k != f - 1;
    }
  }

  lemma PrefixNumbers(cs: seq<Entry>, i: nat)
    requires i < |cs| && Distinct(FieldNumbers(cs))
    ensures FieldNumbers(cs[..i + 1]) == FieldNumbers(cs[..i]) + [NumberOf(cs[i].field)]
    ensures NumberOf(cs[i].field) !in FieldNumbers(cs[..i])
  {
    var ns := FieldNumbers(cs);
    assert FieldNumbers(cs[..i + 1]) == FieldNumbers(cs[..i]) + [NumberOf(cs[i].field)];
    forall j | 0 <= j < i
      ensures FieldNumbers(cs[..i])[j] != NumberOf(cs[i].field)
    {
      assert FieldNumbers(cs[..i])[j] == ns[j] && ns[i] == NumberOf(cs[i].field);
    }
  }

  lemma SlotsAdvance(cs: seq<Entry>, js: seq<Json>, i: nat, acc: seq<Json>)
    requires i < |cs| && |js| == |cs| && cs[i].field.options.fieldNumber.Some?
    requires Distinct(FieldNumbers(cs))
    requires Slots(acc, FieldNumbers(cs[..i]), js[..i])
    ensures Slots(SetSlot(acc, cs[i].field.options.fieldNumber.value - 1, js[i]), FieldNumbers(cs[..i + 1]), js[..i + 1])
  {
    var f: int := cs[i].field.options.fieldNumber.value;
    PrefixNumbers(cs, i);
    SlotsSnoc(FieldNumbers(cs[..i]), FieldNumbers(cs[..i + 1]), js, i, acc, f);
  }

  lemma SlotsSnoc(ns: seq<int>, ns1: seq<int>, js: seq<Json>, i: nat, acc: seq<Json>, f: int)
    requires i < |js| && |ns| == i && ns1 == ns + [f] && f >= 1 && f !in ns
    requires Slots(acc, ns, js[..i])
    ensures Slots(SetSlot(acc, f - 1, js[i]), ns1, js[..i + 1])
  {
    assert js[..i + 1] == js[..i] + [js[i]];
    SlotsStep(acc, ns, js[..i], f, js[i]);
  }

  lemma ChildrenToArrayUnfold(n: Node, i: nat, acc: seq<Json>, v: Json)
    requires i < |n.children| && n.children[i].field.options.fieldNumber.Some?
    requires ToArray(n.children[i].field) == Success(v)
    ensures ChildrenToArray(n, i, acc) == ChildrenToArray(n, i + 1, SetSlot(acc, n.children[i].field.options.fieldNumber.value - 1, v))
  {
  }

  lemma {:induction false} ChildrenToArraySlots(n: Node, i: nat, acc: seq<Json>, js: seq<Json>)
    requires i <= |n.children| && |js| == |n.children|
    requires forall j :: 0 <= j < |n.children| ==> n.children[j].field.options.fieldNumber.Some?
    requires forall j :: 0 <= j < |n.children| ==> ToArray(n.children[j].field) == Success(js[j])
    requires Distinct(FieldNumbers(n.children))
    requires Slots(acc, FieldNumbers(n.children[..i]), js[..i])
    ensures ChildrenToArray(n, i, acc).Success?
    ensures ChildrenToArray(n, i, acc).value.JArr? && Slots(ChildrenToArray(n, i, acc).value.items, FieldNumbers(n.children), js)
    decreases |n.children| - i
  {
    var cs := n.children;
    if i == |cs| {
      assert cs[..i] == cs && js[..i] == js;
    } else {
      var f: int := cs[i].field.options.fieldNumber.value;
      ChildrenToArrayUnfold(n, i, acc, js[i]);
      SlotsAdvance(cs, js, i, acc);
      ChildrenToArraySlots(n, i + 1, SetSlot(acc, f - 1, js[i]), js);
    }
  }

  /**
   * The array form of a valid message whose children encode to `js`: each
   * child's encoding at index `fieldNumber - 1`, holes at the indexes no child
   * has, and no slot past the largest number.
   */
  lemma MessageArray(n: Node, js: seq<Json>)
    requires n.kind.Message? && Validate(n) == Pass
    requires |js| == |n.children|
    requires forall j :: 0 <= j < |n.children| ==> ToArray(n.children[j].field) == Success(js[j])
    ensures ToArray(n).Success? && ToArray(n).value.JArr?
    ensures Slots(ToArray(n).value.items, FieldNumbers(n.children), js)
  {
    ValidChildrenNumbered(n);
    assert n.children[..0] == [] && js[..0] == [];
    assert Slots([], FieldNumbers([]), []);
    ChildrenToArraySlots(n, 0, [], js);
    ToArrayMessage(n);
  }

  lemma ValidChildrenNumbered(n: Node)
    requires n.kind.Message? && Validate(n) == Pass
    ensures forall j :: 0 <= j < |n.children| ==> n.children[j].field.options.fieldNumber.Some?
    ensures Distinct(FieldNumbers(n.children))
  {
    ValidateMessage(n);
    forall j | 0 <= j < |n.children|
      ensures n.children[j].field.options.fieldNumber.Some?
    {
      assert ChildValid(n.children[j]);
    }
  }

  lemma ToArrayMessage(n: Node)
    requires n.kind.Message? && Validate(n) == Pass
    ensures ToArray(n) == ChildrenToArray(n, 0, [])
  {
  }

  // ---------------------------------------------------------------- text round trips of leaf fields

  /** Every kind that writes tokens has a lowercase letter, as the token pattern asks. */
  lemma LetterIsLower(k: Kind)
    requires !k.Reserved?
    ensures IsLowerLetter(Letter(k))
  {
  }

  lemma NumberTextChars(x: Num)
    requires NumberText(x).Some?
    ensures NoLineTerminator(NumberText(x).value)
  {
    if x.Finite? {
      var t := NumberText(x).value;
      var d := NatToDecimal(if x.r.Floor < 0 then -x.r.Floor else x.r.Floor);
      assert t == d || t == "-" + d;
      forall i | 0 <= i < |t|
        ensures !IsLineTerminator(t[i])
      {
        if t != d {
          assert i == 0 || t[i] == d[i - 1];
        }
      }
    } else {
      assert NumberText(x).value == "NaN";
    }
  }

  lemma StringElemRoundTrip(n: Node, v: string)
    requires n.kind.Str? && StringCodec.SafeDelimiter(n.options.delimiter)
    ensures NoLineTerminator(StringCodec.Encode(v, n.options.delimiter))
    ensures DecodeText(n, StringCodec.Encode(v, n.options.delimiter)) == Success(One(StrE(v)))
  {
    StringCodec.EncodeChars(v, n.options.delimiter);
    StringCodec.DecodeEncode(v, n.options.delimiter);
    DecodeStringText(n, StringCodec.Encode(v, n.options.delimiter), v);
  }

  lemma DecodeStringText(n: Node, t: string, v: string)
    requires n.kind.Str? && StringCodec.Decode(t, n.options.delimiter) == Some(v)
    ensures DecodeText(n, t) == Success(One(StrE(v)))
  {
    DecodeTextBranches(n, t);
  }

  lemma Base64StringElemRoundTrip(n: Node, v: string)
    requires n.kind.Base64Str?
    ensures NoLineTerminator(Base64StringCodec.Encode(v))
    ensures DecodeText(n, Base64StringCodec.Encode(v)) == Success(One(StrE(v)))
  {
    Base64StringLine(v);
    Base64StringCodec.DecodeEncode(v);
    DecodeBase64String(n, Base64StringCodec.Encode(v), v);
  }

  lemma DecodeBase64String(n: Node, t: string, v: string)
    requires n.kind.Base64Str? && Base64StringCodec.Decode(t) == Some(v)
    ensures DecodeText(n, t) == Success(One(StrE(v)))
  {
    Base64StrBranch(t, v);
    DecodeTextBranches(n, t);
  }

  lemma Base64StrBranch(t: string, v: string)
    requires Base64StringCodec.Decode(t) == Some(v)
    ensures DecodeBase64StrText(t) == Success(One(StrE(v)))
  {
  }

  /** Which decoder `DecodeText` hands the text to. */
  lemma DecodeTextBranches(n: Node, t: string)
    ensures n.kind.Str? ==> DecodeText(n, t) == DecodeStrText(t, n.options.delimiter)
    ensures n.kind.Base64Str? ==> DecodeText(n, t) == DecodeBase64StrText(t)
    ensures n.kind.Bytes? ==> DecodeText(n, t) == DecodeBytesText(t)
  {
  }

  lemma Base64StringLine(v: string)
    ensures NoLineTerminator(Base64StringCodec.Encode(v))
  {
    var t := Base64StringCodec.Encode(v);
    Base64StringCodec.EncodeAlphabet(v);
    forall i | 0 <= i < |t|
      ensures !IsLineTerminator(t[i])
    {
      assert Base64.IsUrlSafeAlphabet(t[i]);
    }
  }

  lemma BytesElemRoundTrip(n: Node, b: seq<byte>)
    requires n.kind.Bytes?
    ensures NoLineTerminator(Base64Util.ToBase64(b, true))
    ensures DecodeText(n, Base64Util.ToBase64(b, true)) == Success(One(BytesE(b)))
  {
    BytesLine(b);
    Base64Util.RoundTrip(b, true);
    DecodeBytesAt(n, Base64Util.ToBase64(b, true), b);
  }

  lemma BytesLine(b: seq<byte>)
    ensures NoLineTerminator(Base64Util.ToBase64(b, true))
  {
    var t := Base64Util.ToBase64(b, true);
    Base64Util.ToBase64UrlAlphabet(b);
    forall i | 0 <= i < |t|
      ensures !IsLineTerminator(t[i])
    {
      assert Base64.IsUrlSafeAlphabet(t[i]);
    }
  }

  lemma DecodeBytesAt(n: Node, t: string, b: seq<byte>)
    requires n.kind.Bytes? && Base64Util.Base64ToUint8Array(t, true) == Some(b)
    ensures DecodeText(n, t) == Success(One(BytesE(b)))
  {
    DecodeTextBranches(n, t);
  }

  /**
   * The encoded value of every element that can be rendered stays on one line
   * and is decoded back to the element, for every class but enum (whose codes
   * are read back by `Number` instead).
   */
  lemma EncodeElemRoundTrip(n: Node, x: Elem)
    requires !n.kind.Message? && !n.kind.Reserved? && !n.kind.Enum? && Fits(n.kind, x)
    requires EncodeElem(n, x).Success?
    requires n.kind.Str? ==> StringCodec.SafeDelimiter(n.options.delimiter)
    ensures NoLineTerminator(EncodeElem(n, x).value)
    ensures DecodeText(n, EncodeElem(n, x).value) == Success(One(x))
  {
    match x
    case NumE(v) =>
      NumberTextChars(v);
      DecodeNumberText(v);
    case BoolE(b) =>
      BoolCodec.DecodeText(b);
      assert BoolCodec.Text(b) == "true" || BoolCodec.Text(b) == "false";
    case StrE(v) =>
      if n.kind.Base64Str? {
        Base64StringElemRoundTrip(n, v);
      } else {
        StringElemRoundTrip(n, v);
      }
    case BytesE(b) =>
      BytesElemRoundTrip(n, b);
  }

  /**
   * The text round trip of a numbered field that is not a message: the token
   * `toUrl` writes, given to `fromUrl` of the same field holding anything
   * else, restores the field exactly. A string field needs a delimiter the
   * codec can carry; an enum field a code its table knows (and, since its
   * `fromUrl` refuses a list, not to hold one).
   */
  lemma LeafUrlRoundTrip(n: Node, before: Stored<Elem>)
    requires !n.kind.Message? && !n.kind.Reserved? && WellFormed(n)
    requires n.options.fieldNumber.Some? && n.value.One?
    requires ToUrl(n).Success?
    requires n.kind.Str? ==> StringCodec.SafeDelimiter(n.options.delimiter)
    requires n.kind.Enum? ==> !before.Many? && n.value.x.NumE? && EnumTable.LookupCode(n.kind.codes, n.value.x.n).Some?
    ensures FromUrl(n.(value := before), Some(ToUrl(n).value)) == Updated(n, Pass)
  {
    var o := n.options;
    var fn := o.fieldNumber.value;
    var x := n.value.x;
    assert Elements(n.value)[0] == x;
    var enc := EncodeElem(n, x).value;
    assert ToUrl(n) == Success(TokenText(o, fn, enc));
    LetterIsLower(n.kind);
    if n.kind.Enum? {
      EnumUrlRoundTrip(n, before, enc);
    } else {
      EncodeElemRoundTrip(n, x);
      ParseToken(o, fn, enc);
      assert o.(fieldNumber := Some(fn)) == o;
      assert ValidateLeaf(n, One(x)) == Pass;
      DecodedUrlRoundTrip(n, before, TokenText(o, fn, enc), enc, x);
    }
  }

  /** `fromUrl` of a token that parses to the encoding of the field's own element. */
  lemma DecodedUrlRoundTrip(n: Node, before: Stored<Elem>, token: string, enc: string, x: Elem)
    requires !n.kind.Message? && !n.kind.Reserved? && !n.kind.Enum?
    requires !n.options.repeated && n.value == One(x) && token != ""
    requires ParseUrlCore(n.options, Some(token)) == Parsed(n.options, Success(enc))
    requires DecodeText(n, enc) == Success(One(x)) && ValidateLeaf(n, One(x)) == Pass
    ensures FromUrl(n.(value := before), Some(token)) == Updated(n, Pass)
  {
    var m := n.(value := before);
    assert DecodeText(m, enc) == DecodeText(n, enc);
    assert ValidateLeaf(m, One(x)) == ValidateLeaf(n, One(x));
    if n.kind.Bytes? {
      assert FromUrl(m, Some(token)) == BytesFromUrl(m, Some(token));
    } else {
      assert FromUrl(m, Some(token)) == ScalarFromUrl(m, Some(token));
    }
  }

  lemma EnumUrlRoundTrip(n: Node, before: Stored<Elem>, enc: string)
    requires n.kind.Enum? && WellFormed(n) && IsLowerLetter(Letter(n.kind))
    requires n.options.fieldNumber.Some? && n.value.One? && n.value.x.NumE?
    requires !before.Many? && EnumTable.LookupCode(n.kind.codes, n.value.x.n).Some?
    requires EncodeElem(n, n.value.x) == Success(enc)
    ensures FromUrl(n.(value := before), Some(TokenText(n.options, n.options.fieldNumber.value, enc))) == Updated(n, Pass)
  {
    var o := n.options;
    var fn := o.fieldNumber.value;
    var code := n.value.x.n;
    NumberTextChars(code);
    assert code.Finite? by {
      var k := EnumTable.CodeIndex(n.kind.codes, code);
      assert StrictEquals(FromInt(n.kind.codes[k].code), code);
    }
    NumberTextRoundTrip(code);
    ParseToken(o, fn, enc);
    assert o.(fieldNumber := Some(fn)) == o;
    assert FromUrl(n.(value := before), Some(TokenText(o, fn, enc))) == EnumFromUrl(n.(value := before), Some(TokenText(o, fn, enc)));
  }

  /** A field with no value writes "", and "" clears it again. */
  lemma LeafUrlEmpty(n: Node)
    requires !n.kind.Message? && !n.kind.Reserved? && !n.kind.Bytes? && !n.kind.Enum? && !n.options.repeated
    requires n.value.Absent? && Validate(n) == Pass
    ensures ToUrl(n) == Success("")
    ensures FromUrl(n, Some("")) == Updated(n, Pass)
  {
  }

  // ---------------------------------------------------------------- setter properties

  lemma KeyIndexSameNames(cs: seq<Entry>, ds: seq<Entry>, key: string)
    requires |cs| == |ds| && forall j :: 0 <= j < |cs| ==> cs[j].name == ds[j].name
    ensures KeyIndex(cs, key) == KeyIndex(ds, key)
  {
  }

  /** Assigning a field instance puts it under its key and changes no other key. */
  lemma PutLookup(cs: seq<Entry>, key: string, f: Node, other: string)
    requires other != key
    ensures Lookup(Put(cs, key, f), key) == Some(f)
    ensures Lookup(Put(cs, key, f), other) == Lookup(cs, other)
  {
    var k := KeyIndex(cs, key);
    var ps := Put(cs, key, f);
    if k < |cs| {
      KeyIndexSameNames(cs, ps, other);
      KeyIndexSameNames(cs, ps, key);
    } else {
      var a, b := KeyIndex(cs, other), KeyIndex(ps, other);
      assert ps[..|cs|] == cs;
      if a < |cs| {
        assert b <= a by {
          assert ps[a].name == other;
        }
        assert cs[b].name == other || b == a;
      } else {
        assert forall j :: 0 <= j < |ps| ==> ps[j].name != other;
      }
      var c := KeyIndex(ps, key);
      assert c == |cs| by {
        assert ps[|cs|].name == key;
      }
    }
  }

  function Keys(entries: seq<Assignment>): seq<string> {
    seq(|entries|, j requires 0 <= j < |entries| => entries[j].key)
  }

  /**
   * Assigning an object to a message leaves the child under every key the
   * object does not name as it was, whether the assignment passes or stops
   * at an error.
   */
  lemma {:induction false} AssignFromOthers(n: Node, input: Input, j: nat, key: string)
    requires input.Fields? && j <= |input.entries|
    requires key !in Keys(input.entries[j..])
    ensures Lookup(AssignFrom(n, input, j).node.children, key) == Lookup(n.children, key)
    decreases |input.entries| - j
  {
    if j < |input.entries| {
      var a := input.entries[j];
      assert Keys(input.entries[j..])[0] == a.key;
      assert Keys(input.entries[j + 1..]) == Keys(input.entries[j..])[1..];
      match a.item
      case Instance(f) =>
        PutLookup(n.children, a.key, f, key);
        AssignFromOthers(n.(children := Put(n.children, a.key, f)), input, j + 1, key);
      case Plain(inner) =>
        var k := KeyIndex(n.children, a.key);
        if k == |n.children| {
          AssignFromOthers(n, input, j + 1, key);
        } else {
          var u := SetValue(n.children[k].field, inner);
          var next := n.(children := n.children[k := Entry(a.key, u.node)]);
          KeyIndexSameNames(n.children, next.children, key);
          if u.outcome.Pass? {
            AssignFromOthers(next, input, j + 1, key);
          }
        }
    }
  }

  /** A one-entry object holding a field instance replaces or adds the child of that name. */
  lemma AssignInstance(n: Node, key: string, f: Node)
    requires n.kind.Message?
    ensures SetValue(n, Fields([Assignment(key, Instance(f))])) == Updated(n.(children := Put(n.children, key, f)), Pass)
  {
    var input := Fields([Assignment(key, Instance(f))]);
    var next := n.(children := Put(n.children, key, f));
    assert AssignFrom(next, input, 1) == Updated(next, Pass);
    assert AssignFrom(n, input, 0) == AssignFrom(next, input, 1);
  }

  /**
   * A one-entry object holding a plain value assigns it to the child of that
   * name, keeping the child's place and the outcome of its setter, and is
   * ignored when no child has that name.
   */
  lemma AssignPlain(n: Node, key: string, inner: Input)
    requires n.kind.Message?
    ensures Lookup(n.children, key).None? ==> SetValue(n, Fields([Assignment(key, Plain(inner))])) == Updated(n, Pass)
    ensures Lookup(n.children, key).Some? ==>
      var k := KeyIndex(n.children, key);
      var u := SetValue(n.children[k].field, inner);
      SetValue(n, Fields([Assignment(key, Plain(inner))])) == Updated(n.(children := n.children[k := Entry(key, u.node)]), u.outcome)
  {
    var input := Fields([Assignment(key, Plain(inner))]);
    var k := KeyIndex(n.children, key);
    if k == |n.children| {
      assert AssignFrom(n, input, 1) == Updated(n, Pass);
      assert AssignFrom(n, input, 0) == AssignFrom(n, input, 1);
    } else {
      var u := SetValue(n.children[k].field, inner);
      var next := n.(children := n.children[k := Entry(key, u.node)]);
      assert AssignFrom(next, input, 1) == Updated(next, Pass);
      assert AssignFrom(n, input, 0) == if u.outcome.Fail? then Updated(next, u.outcome) else AssignFrom(next, input, 1);
    }
  }

  /**
   * The setter of a scalar or bytes field: it raises exactly when the value
   * (the stored one, for undefined) is refused, and then keeps the old value;
   * otherwise it stores the new one. A value stored this way passes
   * validation on its own, and a well-formed field stays well-formed.
   */
  lemma SetLeafValue(n: Node, v: Stored<Elem>)
    requires !n.kind.Message? && !n.kind.Reserved? && !n.kind.Enum?
    ensures SetValue(n, Value(v)).outcome == ValidateLeaf(n, v)
    ensures SetValue(n, Value(v)).node == if ValidateLeaf(n, v).Pass? then n.(value := v) else n
    ensures ValidateLeaf(n, v).Pass? && !v.Absent? ==> Validate(n.(value := v)) == Pass
    ensures ValidateLeaf(n, v).Pass? && WellFormed(n) ==> WellFormed(n.(value := v))
  {
    if ValidateLeaf(n, v).Pass? && !v.Absent? {
      assert RealValue(Absent, v) == RealValue(v, n.value);
      assert Validate(n.(value := v)) == ValidateLeaf(n.(value := v), Absent);
    }
  }

  /** `value = undefined` on a required field that holds a value passes, and leaves a field that no longer validates. */
  lemma ClearRequired(n: Node)
    requires n.kind.Bool? && n.options.required && !n.options.repeated && n.value.One? && n.value.x.BoolE?
    ensures SetValue(n, Value(Absent)) == Updated(n.(value := Absent), Pass)
    ensures Validate(n.(value := Absent)) == Fail(RequiredMissing)
  {
  }

  /** The enum setter stores codes the table knows, as a list exactly on a repeated field. */
  lemma SetEnumValue(n: Node, v: Stored<Elem>)
    requires n.kind.Enum? && WellFormed(n)
    ensures SetValue(n, Value(v)).outcome.Pass? ==>
      var s := SetValue(n, Value(v)).node;
      WellFormed(s) && forall i :: 0 <= i < |Elements(s.value)| ==> EnumTable.LookupCode(n.kind.codes, Elements(s.value)[i].n).Some?
  {
    match EnumTable.SetValue(n.kind.codes, n.options.repeated, MapStored(v, EnumInput))
    case Failure(_) =>
    case Success(stored) =>
      var s := MapStored(stored, (c: Num) => NumE(c));
      assert forall i :: 0 <= i < |Elements(s)| ==> Elements(s)[i] == NumE(Elements(stored)[i]);
  }

  function HasReserved(n: Node): bool
    decreases n
  {
    n.kind.Reserved? || (n.kind.Message? && exists i :: 0 <= i < |n.children| && HasReserved(n.children[i].field))
  }

  /** Same names and kinds, child by child. */
  predicate SameShape(cs: seq<Entry>, ds: seq<Entry>) {
    |cs| == |ds| && forall j :: 0 <= j < |cs| ==> cs[j].name == ds[j].name && cs[j].field.kind == ds[j].field.kind
  }

  /**
   * `value = undefined` that passes leaves the field undefined, unless a
   * reserved field (which always holds `null`) sits somewhere inside it; the
   * children keep their names and classes.
   */
  lemma {:induction false} ClearEmpties(n: Node)
    requires Clear(n).outcome.Pass? && !HasReserved(n)
    ensures IsUndefined(Clear(n).node) && Clear(n).node.kind == n.kind
    ensures SameShape(n.children, Clear(n).node.children)
    decreases n, |n.children| + 1
  {
    if n.kind.Message? {
      ClearChildrenEmpties(n, 0, []);
    }
  }

  lemma {:induction false} ClearChildrenEmpties(n: Node, i: nat, done: seq<Entry>)
    requires n.kind.Message? && i <= |n.children| && !HasReserved(n)
    requires ClearChildren(n, i, done, false).outcome.Pass?
    requires SameShape(n.children[..i], done) && forall j :: 0 <= j < |done| ==> IsUndefined(done[j].field)
    ensures var r := ClearChildren(n, i, done, false).node;
      r.kind == n.kind && SameShape(n.children, r.children) && forall j :: 0 <= j < |r.children| ==> IsUndefined(r.children[j].field)
    decreases n, |n.children| - i
  {
    var cs := n.children;
    if i == |cs| {
      assert cs[..i] == cs;
    } else {
      var c := cs[i].field;
      assert !HasReserved(c);
      var u := ClearWith(c, false);
      assert u == Clear(c);
      ClearEmpties(c);
      var done' := done + [cs[i].(field := u.node)];
      assert cs[..i + 1] == cs[..i] + [cs[i]];
      ClearChildrenEmpties(n, i + 1, done');
    }
  }

  /**
   * `value = undefined` on a message as written always raises, even after
   * every child was cleared; an empty message shows it, where the corrected
   * setter passes.
   */
  lemma ClearAsWrittenRaises(n: Node)
    requires n.kind.Message?
    ensures ClearAsWritten(n).outcome.Fail?
    ensures n.children == [] ==> ClearAsWritten(n) == Updated(n, Fail(TypeError)) && Clear(n) == Updated(n, Pass)
  {
    if n.children == [] {
      assert n.(children := []) == n;
      assert ClearChildren(n, 0, [], true) == Updated(n, Pass);
      assert ClearChildren(n, 0, [], false) == Updated(n, Pass);
    }
  }

  /** A reserved field ignores assignment, writes "" and `null`, always validates and is never undefined. */
  lemma ReservedInert(n: Node, input: Input)
    requires n.kind.Reserved?
    ensures SetValue(n, input) == Updated(n, Pass) && Clear(n) == Updated(n, Pass)
    ensures ToUrl(n) == Success("") && ToArray(n) == Success(Null) && ValueOf(n) == Success(NullOut)
    ensures Validate(n) == Pass && !IsUndefined(n)
    ensures FromUrl(n, Some("")).outcome == Fail(TypeError) && FromArray(n, Absent).outcome == Fail(TypeError)
  {
  }

  // ---------------------------------------------------------------- field number lock

  /** `lockFieldNumber`. */
  function LockFieldNumber(n: Node): (r: Node)
    ensures r.locked && r == n.(locked := r.locked)
  {
    n.(locked := true)
  }

  /** `unlockFieldNumber`. */
  function UnlockFieldNumber(n: Node): (r: Node)
    ensures !r.locked && r == n.(locked := r.locked)
  {
    n.(locked := false)
  }

  /**
   * A field comes out of its constructor locked, so its number cannot be set;
   * once unlocked, any integer from 1 up is taken, and locking again refuses
   * further changes.
   */
  lemma LockCycle(kind: Kind, options: Option<FieldOptions>, x: Num, y: Num)
    requires !kind.Message? && !kind.Enum? && NewField(kind, options).Success?
    requires IsInteger(x) && x.r >= 1.0
    ensures var n := NewField(kind, options).value;
      SetFieldNumber(n, x) == Updated(n, Fail(FieldNumberLocked))
      && SetFieldNumber(UnlockFieldNumber(n), x).outcome.Pass?
      && FromInt(SetFieldNumber(UnlockFieldNumber(n), x).node.options.fieldNumber.value) == x
      && SetFieldNumber(LockFieldNumber(SetFieldNumber(UnlockFieldNumber(n), x).node), y).outcome == Fail(FieldNumberLocked)
  {
  }

  // ---------------------------------------------------------------- delimiter push

  /** `d` is the delimiter of the node and, for a message, of every field below it. */
  predicate DelimitedWith(n: Node, d: string)
    decreases n
  {
    n.options.delimiter == d
    && (n.kind.Message? ==> forall i :: 0 <= i < |n.children| ==> DelimitedWith(n.children[i].field, d))
  }

  /**
   * Setting a delimiter of one UTF-16 code unit passes and reaches every field of the
   * tree; names, classes and the tree's shape stay.
   */
  lemma {:induction false} DelimiterPushed(n: Node, d: string)
    requires Text.Utf16Length(d) == 1
    ensures SetDelimiter(n, Some(d)).outcome.Pass?
    ensures DelimitedWith(SetDelimiter(n, Some(d)).node, d)
    ensures SetDelimiter(n, Some(d)).node.kind == n.kind && SameShape(n.children, SetDelimiter(n, Some(d)).node.children)
    decreases n, |n.children| + 1
  {
    if n.kind.Message? {
      assert n.children[..0] == [];
      DelimiterChildrenPushed(n, d, 0, []);
    }
  }

  lemma {:induction false} DelimiterChildrenPushed(n: Node, d: string, i: nat, done: seq<Entry>)
    requires Text.Utf16Length(d) == 1 && n.kind.Message? && i <= |n.children|
    requires SameShape(n.children[..i], done) && forall j :: 0 <= j < |done| ==> DelimitedWith(done[j].field, d)
    ensures var u := DelimiterChildren(n, d, i, done);
      u.outcome.Pass? && DelimitedWith(u.node, d) && u.node.kind == n.kind && SameShape(n.children, u.node.children)
    decreases n, |n.children| - i
  {
    var cs := n.children;
    if i == |cs| {
      assert cs[..i] == cs;
    } else {
      var u := SetDelimiter(cs[i].field, Some(d));
      DelimiterPushed(cs[i].field, d);
      assert cs[..i + 1] == cs[..i] + [cs[i]];
      DelimiterChildrenPushed(n, d, i + 1, done + [cs[i].(field := u.node)]);
    }
  }

  /**
   * A message stores any delimiter unchecked and passes it on: when its first
   * child is not a message, a delimiter of two or more UTF-16 code units is refused there, and the
   * message keeps the delimiter it already stored.
   */
  lemma DelimiterRefusedBelow(n: Node, d: string)
    requires n.kind.Message? && Text.Utf16Length(d) >= 2 && |n.children| >= 1 && !n.children[0].field.kind.Message?
    ensures SetDelimiter(n, Some(d)) == Updated(n.(options := n.options.(delimiter := d)), Fail(InvalidDelimiter))
  {
    var c := n.children[0];
    assert SetDelimiter(c.field, Some(d)) == Updated(c.field, Fail(InvalidDelimiter));
    assert [c.(field := c.field)] + n.children[1..] == n.children;
  }

  // ---------------------------------------------------------------- array round trips of leaf fields

  /** A JSON value read back as one element; None for what no scalar setter takes (arrays, null). */
  function JsonElem(j: Json): Option<Elem> {
    match j
    case JNum(x) => Some(NumE(x))
    case JBool(b) => Some(BoolE(b))
    case JStr(s) => Some(StrE(s))
    case _ => None
  }

  /**
   * The array form of a leaf read back as a setter input: `undefined`, `null`
   * and a hole are no value (the setter's `??` treats them alike), an array of
   * scalars is a list.
   */
  function JsonInput(j: Json): Option<Stored<Elem>> {
    match j
    case Undefined => Some(Absent)
    case Null => Some(Absent)
    case Hole => Some(Absent)
    case JArr(items) =>
      if forall i :: 0 <= i < |items| ==> JsonElem(items[i]).Some? then
        Some(Many(seq(|items|, i requires 0 <= i < |items| && JsonElem(items[i]).Some? => JsonElem(items[i]).value)))
      else None
    case _ => Some(One(JsonElem(j).value))
  }

  lemma DecodeBase64AllRoundTrip(xs: seq<Elem>)
    requires forall i :: 0 <= i < |xs| ==> xs[i].BytesE?
    ensures DecodeBase64All(seq(|xs|, i requires 0 <= i < |xs| => JStrOf(xs[i]))) == Success(xs)
  {
    var ts := seq(|xs|, i requires 0 <= i < |xs| => JStrOf(xs[i]));
    forall i | 0 <= i < |xs|
      ensures ts[i].StrE? && Base64Util.Base64ToUint8Array(ts[i].s, false) == Some(xs[i].bytes)
    {
      Base64Util.RoundTrip(xs[i].bytes, false);
    }
    DecodeBase64AllPointwise(ts, xs);
  }

  /** Each string decoding to the bytes of the element at its index decodes the whole list. */
  lemma {:induction false} DecodeBase64AllPointwise(ts: seq<Elem>, xs: seq<Elem>)
    requires |ts| == |xs|
    requires forall i :: 0 <= i < |xs| ==> xs[i].BytesE? && ts[i].StrE? && Base64Util.Base64ToUint8Array(ts[i].s, false) == Some(xs[i].bytes)
    ensures DecodeBase64All(ts) == Success(xs)
  {
    if ts != [] {
      DecodeBase64AllPointwise(ts[1..], xs[1..]);
      DecodeBase64AllCons(ts, xs[0].bytes, xs[1..]);
      assert [BytesE(xs[0].bytes)] + xs[1..] == xs;
    }
  }

  lemma DecodeBase64AllCons(ts: seq<Elem>, b: seq<byte>, bs: seq<Elem>)
    requires ts != [] && ts[0].StrE? && Base64Util.Base64ToUint8Array(ts[0].s, false) == Some(b)
    requires DecodeBase64All(ts[1..]) == Success(bs)
    ensures DecodeBase64All(ts) == Success([BytesE(b)] + bs)
  {
  }

  /** The string a bytes element becomes in the array form, as a setter element. */
  function JStrOf(e: Elem): Elem {
    if e.BytesE? then StrE(Base64Util.ToBase64(e.bytes, false)) else e
  }

  lemma JsonInputOfStored(v: Stored<Elem>)
    requires !v.Absent?
    ensures JsonInput(StoredJson(v)) == Some(MapStored(v, JStrOf))
  {
    var back := MapStored(v, JStrOf);
    if v.Many? {
      var xs := v.xs;
      var items := StoredJson(v).items;
      assert forall i :: 0 <= i < |xs| ==> xs[i] == Elements(v)[i];
      assert forall i :: 0 <= i < |items| ==> JsonElem(items[i]) == Some(JStrOf(xs[i]));
      var m := seq(|items|, i requires 0 <= i < |items| && JsonElem(items[i]).Some? => JsonElem(items[i]).value);
      assert m == back.xs by {
        forall i | 0 <= i < |m|
          ensures m[i] == back.xs[i]
        {
          assert back.xs[i] == JStrOf(Elements(v)[i]);
        }
      }
    }
  }

  lemma DecodeBase64Back(v: Stored<Elem>)
    requires !v.Absent? && forall i :: 0 <= i < |Elements(v)| ==> Elements(v)[i].BytesE?
    ensures DecodeBase64(MapStored(v, JStrOf)) == Success(v)
  {
    match v
    case One(x) =>
      assert Elements(v)[0] == x;
      Base64Util.RoundTrip(x.bytes, false);
    case Many(xs) =>
      assert forall i :: 0 <= i < |xs| ==> xs[i] == Elements(v)[i];
      DecodeBase64AllRoundTrip(xs);
      assert MapStored(v, JStrOf).xs == seq(|xs|, i requires 0 <= i < |xs| => JStrOf(xs[i]));
  }

  /**
   * The array round trip of a field that is not a message: what `toArray`
   * gives, handed to `fromArray` of the same field holding anything else,
   * restores the field; bytes come back from padded standard base 64.
   */
  lemma LeafArrayRoundTrip(n: Node, before: Stored<Elem>)
    requires !n.kind.Message? && !n.kind.Reserved? && !n.kind.Enum? && WellFormed(n)
    requires !n.value.Absent? && ToArray(n).Success?
    ensures JsonInput(ToArray(n).value).Some?
    ensures FromArray(n.(value := before), JsonInput(ToArray(n).value).value) == Updated(n, Pass)
  {
    var v := n.value;
    assert ToArray(n).value == StoredJson(v);
    JsonInputOfStored(v);
    var back := MapStored(v, JStrOf);
    if n.kind.Bytes? {
      DecodeBase64Back(v);
    } else {
      assert back == v by {
        assert AllFit(n.kind, v);
        assert forall i :: 0 <= i < |Elements(v)| ==> !Elements(v)[i].BytesE?;
        assert forall i :: 0 <= i < |Elements(v)| ==> JStrOf(Elements(v)[i]) == Elements(v)[i];
        if v.One? {
          assert Elements(v)[0] == v.x;
        } else {
          assert forall i :: 0 <= i < |v.xs| ==> v.xs[i] == Elements(v)[i];
          assert back.xs == v.xs;
        }
      }
    }
    SetLeafValue(n.(value := before), v);
    assert RealValue(v, before) == RealValue(Absent, v);
    assert Validate(n) == ValidateLeaf(n, Absent);
  }

  /** A bytes field holding nothing writes `undefined` without validating, even when it is required. */
  lemma BytesArrayUnchecked(n: Node)
    requires n.kind.Bytes? && n.value.Absent? && n.options.required && !n.options.repeated
    ensures ToArray(n) == Success(Undefined) && Validate(n) == Fail(RequiredMissing)
  {
  }

  // ---------------------------------------------------------------- text encoding as written

  /** Away from empty strings and bytes, `toUrl` as written agrees with the model's. */
  lemma LeafToUrlAsWrittenAgrees(n: Node)
    requires !n.kind.Message? && !n.kind.Bytes?
    requires !(n.value.One? && n.value.x == StrE(""))
    ensures LeafToUrlAsWritten(n) == (match ToUrl(n) case Failure(e) => Failure(e) case Success(t) => Success(Some(t)))
  {
  }

  /**
   * A numbered bytes field with a value writes nothing as written (the bare
   * `return` gives `undefined`), where the model writes the token that
   * `LeafUrlRoundTrip` reads back.
   */
  lemma BytesNumberedAsWritten(n: Node)
    requires n.kind.Bytes? && WellFormed(n) && n.options.fieldNumber.Some? && n.value.One?
    requires Validate(n) == Pass && !n.options.repeated
    ensures LeafToUrlAsWritten(n) == Success(None)
    ensures ToUrl(n) == Success(TokenText(n.options, n.options.fieldNumber.value, Base64Util.ToBase64(n.value.x.bytes, true)))
  {
    assert Elements(n.value)[0] == n.value.x;
  }

  lemma EmptyStringEncoding(d: string)
    requires StringCodec.SafeDelimiter(d)
    ensures StringCodec.Encode("", d) == ""
  {
    StringCodec.EncodeChars("", d);
    StringCodec.DecodeEncode("", d);
    StringCodec.EncodeIsEscape("", d);
  }

  /**
   * A numbered string field holding "" writes the token text "undefined" as
   * written, where the model writes the bare token head, which reads back as "".
   */
  lemma EmptyStringAsWritten(n: Node)
    requires n.kind.Str? && n.options.fieldNumber.Some? && n.value == One(StrE(""))
    requires Validate(n) == Pass && !n.options.repeated && StringCodec.SafeDelimiter(n.options.delimiter)
    ensures LeafToUrlAsWritten(n) == Success(Some(TokenText(n.options, n.options.fieldNumber.value, "undefined")))
    ensures ToUrl(n) == Success(TokenText(n.options, n.options.fieldNumber.value, ""))
  {
    EmptyStringEncoding(n.options.delimiter);
  }

  /** `fromUrl("")` on a bytes field drops the value and then decodes "", so the field ends holding an empty byte array. */
  lemma BytesFromUrlEmpty(n: Node)
    requires n.kind.Bytes? && !n.options.repeated
    ensures FromUrl(n, Some("")) == Updated(n.(value := One(BytesE([]))), Pass)
  {
    assert Base64.ForgivingDecode("") == Some([]);
    assert Base64Util.Base64ToUint8Array("", true) == Some([]);
  }

  /** 100 with field number 9 and delimiter "!": "!9i100" for int32, "!9d100" for double, and so on for each numeric type. */
  lemma NumericToken(k: NumericTypes.NumericKind)
    ensures ToUrl(Node(Numeric(k), Options(Some(9), false, false, "!", NumericTypes.Letter(k)), true, One(NumE(FromInt(100))), []))
      == Success("!9" + [NumericTypes.Letter(k)] + "100")
  {
    var n := Node(Numeric(k), Options(Some(9), false, false, "!", NumericTypes.Letter(k)), true, One(NumE(FromInt(100))), []);
    var x := FromInt(100);
    assert Elements(n.value) == [NumE(x)];
    assert AllFit(n.kind, n.value);
    assert Elements(Nums(n.value)) == [x];
    assert NumericTypes.ElementOk(k, x);
    assert NumericTypes.Validate(k, n.options, Nums(n.value)) == Pass;
    assert Validate(n) == Pass;
    assert NatToDecimal(10) == "10";
    assert NatToDecimal(100) == "100";
    assert EncodeElem(n, NumE(x)) == Success("100");
    assert TokenText(n.options, 9, "100") == "!9" + [NumericTypes.Letter(k)] + "100";
  }

  /** true with field number 2 is "!2btrue". */
  lemma BoolToken()
    ensures ToUrl(Node(Bool, Options(Some(2), false, false, "!", 'b'), true, One(BoolE(true)), [])) == Success("!2btrue")
  {
    var n := Node(Bool, Options(Some(2), false, false, "!", 'b'), true, One(BoolE(true)), []);
    assert Elements(n.value) == [BoolE(true)];
    assert AllFit(n.kind, n.value);
    assert Validate(n) == Pass;
    assert TokenText(n.options, 2, "true") == "!2btrue";
  }
}

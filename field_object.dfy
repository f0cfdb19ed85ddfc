/**
 * The field objects themselves. A `Field` holds what a `GenericPBFField`
 * holds: its options, the field number lock, its value and, for a message,
 * its named children. Its methods change that state in place as the source's
 * setters and methods do, and each is proved to end in the state, and with
 * the outcome, that the value-level model in `Fields` gives; the loops of
 * the message class are loops here.
 */
module FieldObject {
  import opened Wrappers
  import opened Numbers
  import opened Core
  import Fields

  class Field {
    const kind: Fields.Kind
    var options: Options
    var locked: bool
    var value: Stored<Fields.Elem>
    var children: seq<Fields.Entry>

    /** The field's state as a value. */
    function Snapshot(): Fields.Node
      reads this
    {
      Fields.Node(kind, options, locked, value, children)
    }

    constructor Of(n: Fields.Node)
      ensures Snapshot() == n
    {
      kind := n.kind;
      options := n.options;
      locked := n.locked;
      value := n.value;
      children := n.children;
    }

    /**
     * The constructors of the field classes (core.ts lines 45-57, with the
     * message and enum constructors): the options are extended and checked,
     * and a construction that throws gives its error. The enum constructor
     * destructures its options, so it needs them.
     */
    static method New(kind: Fields.Kind, options: Option<FieldOptions>, base: seq<Fields.Entry>) returns (r: Result<Field, Error>)
      ensures kind.Message? ==> r.Success? == Fields.NewMessage(options, base).Success?
      ensures kind.Message? && r.Success? ==> fresh(r.value) && r.value.Snapshot() == Fields.NewMessage(options, base).value
      ensures kind.Enum? && options.None? ==> r == Failure(TypeError)
      ensures kind.Enum? && options.Some? ==> r.Success? == Fields.NewEnum(kind.codes, options.value).Success?
      ensures kind.Enum? && options.Some? && r.Success? ==> fresh(r.value) && r.value.Snapshot() == Fields.NewEnum(kind.codes, options.value).value
      ensures !kind.Message? && !kind.Enum? ==> r.Success? == Fields.NewField(kind, options).Success?
      ensures !kind.Message? && !kind.Enum? && r.Success? ==> fresh(r.value) && r.value.Snapshot() == Fields.NewField(kind, options).value
    {
      var made: Result<Fields.Node, Error>;
      if kind.Message? {
        made := Fields.NewMessage(options, base);
      } else if kind.Enum? {
        if options.None? {
          return Failure(TypeError);
        }
        made := Fields.NewEnum(kind.codes, options.value);
      } else {
        made := Fields.NewField(kind, options);
      }
      if made.Failure? {
        return Failure(made.error);
      }
      var f := new Field.Of(made.value);
      return Success(f);
    }

    /** Takes over the state of `n`, a node of the same class. */
    method Load(n: Fields.Node)
      requires n.kind == kind
      modifies this
      ensures Snapshot() == n
    {
      options := n.options;
      locked := n.locked;
      value := n.value;
      children := n.children;
    }

    /** `lockFieldNumber` (core.ts lines 63-65). */
    method LockFieldNumber()
      modifies this
      ensures Snapshot() == old(Snapshot()).(locked := true)
    {
      locked := true;
    }

    /** `unlockFieldNumber` (core.ts lines 66-68). */
    method UnlockFieldNumber()
      modifies this
      ensures Snapshot() == old(Snapshot()).(locked := false)
    {
      locked := false;
    }

    /** The `fieldNumber` setter (core.ts lines 69-74): refused while locked and for a number that is not a positive integer. */
    method SetFieldNumber(x: Num) returns (outcome: Outcome<Error>)
      modifies this
      ensures Fields.Updated(Snapshot(), outcome) == Fields.SetFieldNumber(old(Snapshot()), x)
      ensures outcome.Pass? <==> !old(locked) && IsInteger(x) && x.r >= 1.0
      ensures outcome.Fail? ==> Snapshot() == old(Snapshot())
    {
      var u := Fields.SetFieldNumber(Snapshot(), x);
      Load(u.node);
      outcome := u.outcome;
    }

    /**
     * `isUndefined` (core.ts lines 98-100; message.ts lines 51-56, which looks
     * for a child that holds something).
     */
    method IsUndefined() returns (b: bool)
      ensures b == Fields.IsUndefined(Snapshot())
    {
      if !kind.Message? {
        return if kind.Reserved? then false else value.Absent?;
      }
      var i := 0;
      while i < |children|
        invariant i <= |children|
        invariant forall j :: 0 <= j < i ==> Fields.IsUndefined(children[j].field)
      {
        if !Fields.IsUndefined(children[i].field) {
          return false;
        }
        i := i + 1;
      }
      return true;
    }

    /**
     * `validateValue()` (core.ts lines 143-148 and 214-231 for the leaf
     * classes; message.ts lines 58-69 for a message, whose loop validates each
     * child and collects its field number).
     */
    method Validate() returns (outcome: Outcome<Error>)
      ensures outcome == Fields.Validate(Snapshot())
    {
      if !kind.Message? {
        return Fields.ValidateLeaf(Snapshot(), Absent);
      }
      var undefined := IsUndefined();
      if options.required && undefined {
        return Fail(RequiredMissing);
      }
      var numbers: seq<int> := [];
      var i := 0;
      while i < |children|
        invariant i <= |children|
        invariant Fields.ValidateChildren(Snapshot(), i, numbers) == Fields.Validate(Snapshot())
      {
        var c := children[i].field;
        var o := Fields.Validate(c);
        if o.Fail? {
          return o;
        }
        var fn := GetFieldNumber(c.options);
        if fn.Failure? {
          return Fail(fn.error);
        }
        numbers := numbers + [fn.value];
        i := i + 1;
      }
      return if Fields.Distinct(numbers) then Pass else Fail(DuplicateFieldNumbers);
    }

    /**
     * `toArray` (`arrayEncode` of a message, message.ts lines 90-97: after
     * validation, each child's encoding is written at `fieldNumber - 1`).
     */
    method ToArray() returns (r: Result<Fields.Json, Error>)
      ensures r == Fields.ToArray(Snapshot())
    {
      if !kind.Message? {
        return Fields.ToArray(Snapshot());
      }
      var o := Validate();
      if o.Fail? {
        return Failure(o.error);
      }
      var encoded: seq<Fields.Json> := [];
      var i := 0;
      while i < |children|
        invariant i <= |children|
        invariant Fields.ChildrenToArray(Snapshot(), i, encoded) == Fields.ToArray(Snapshot())
      {
        var c := children[i].field;
        var fn := GetFieldNumber(c.options);
        if fn.Failure? {
          return Failure(fn.error);
        }
        var j := Fields.ToArray(c);
        if j.Failure? {
          return Failure(j.error);
        }
        encoded := Fields.SetSlot(encoded, fn.value as int - 1, j.value);
        i := i + 1;
      }
      return Success(Fields.JArr(encoded));
    }

    /**
     * The `value` setter (core.ts lines 132-136, enum.ts lines 36-61,
     * message.ts lines 18-37). A message assigned an object goes through its
     * entries in order: a field instance replaces or adds the child of that
     * name, a plain value goes to the existing child of that name. A message
     * assigned undefined clears its children.
     */
    method SetValue(input: Fields.Input) returns (outcome: Outcome<Error>)
      modifies this
      ensures Fields.Updated(Snapshot(), outcome) == Fields.SetValue(old(Snapshot()), input)
    {
      if kind.Message? && input.Fields? {
        outcome := AssignEntries(input);
        return;
      }
      if kind.Message? && input.v.Absent? {
        outcome := ClearChildren(false);
        return;
      }
      var u := Fields.SetValue(Snapshot(), input);
      Load(u.node);
      outcome := u.outcome;
    }

    /** The loop of message.ts lines 26-36 over the entries of an assigned object. */
    method AssignEntries(input: Fields.Input) returns (outcome: Outcome<Error>)
      requires kind.Message? && input.Fields?
      modifies this
      ensures Fields.Updated(Snapshot(), outcome) == Fields.SetValue(old(Snapshot()), input)
    {
      var j := 0;
      while j < |input.entries|
        invariant j <= |input.entries|
        invariant Fields.AssignFrom(Snapshot(), input, j) == Fields.SetValue(old(Snapshot()), input)
      {
        var a := input.entries[j];
        match a.item {
          case Instance(f) =>
            children := Fields.Put(children, a.key, f);
          case Plain(inner) =>
            var k := Fields.KeyIndex(children, a.key);
            if k < |children| {
              var u := Fields.SetValue(children[k].field, inner);
              children := children[k := Fields.Entry(a.key, u.node)];
              if u.outcome.Fail? {
                return u.outcome;
              }
            }
        }
        j := j + 1;
      }
      return Pass;
    }

    /**
     * The loop of message.ts lines 21-23: `value = undefined` on each child in
     * order, stopping at the first error; `asWritten` then raises the
     * TypeError of line 26.
     */
    method ClearChildren(asWritten: bool) returns (outcome: Outcome<Error>)
      requires kind.Message?
      modifies this
      ensures Fields.Updated(Snapshot(), outcome) == Fields.ClearWith(old(Snapshot()), asWritten)
    {
      ghost var n := Snapshot();
      var i := 0;
      while i < |children|
        invariant i <= |children| == |n.children|
        invariant children[i..] == n.children[i..]
        invariant options == n.options && locked == n.locked && value == n.value
        invariant Fields.ClearChildren(n, i, children[..i], asWritten) == Fields.ClearChildren(n, 0, [], asWritten)
      {
        var e := children[i];
        var u := Fields.ClearWith(e.field, asWritten);
        ClearStep(n, i, children[..i], asWritten);
        Splice(children, i, e.(field := u.node));
        children := children[i := e.(field := u.node)];
        if u.outcome.Fail? {
          return u.outcome;
        }
        i := i + 1;
      }
      assert children[..i] == children;
      return if asWritten then Fail(TypeError) else Pass;
    }

    /**
     * The `delimiter` setter (core.ts lines 86-92; message.ts lines 45-49,
     * which stores the delimiter unchecked and passes it to each child).
     */
    method SetDelimiter(d: Option<string>) returns (outcome: Outcome<Error>)
      modifies this
      ensures Fields.Updated(Snapshot(), outcome) == Fields.SetDelimiter(old(Snapshot()), d)
    {
      if !kind.Message? {
        var u := Fields.SetDelimiter(Snapshot(), d);
        Load(u.node);
        return u.outcome;
      }
      ghost var n := Snapshot();
      var actual := d.GetOr(DefaultDelimiter);
      options := options.(delimiter := actual);
      var i := 0;
      while i < |children|
        invariant i <= |children| == |n.children|
        invariant children[i..] == n.children[i..]
        invariant Snapshot() == n.(options := n.options.(delimiter := actual), children := children)
        invariant Fields.DelimiterChildren(n, actual, i, children[..i]) == Fields.DelimiterChildren(n, actual, 0, [])
      {
        var e := children[i];
        var u := Fields.SetDelimiter(e.field, Some(actual));
        Splice(children, i, e.(field := u.node));
        children := children[i := e.(field := u.node)];
        if u.outcome.Fail? {
          return u.outcome;
        }
        i := i + 1;
      }
      assert children[..i] == children;
      return Pass;
    }

    /** `fromUrl` (core.ts lines 176-185, enum.ts and bytes.ts); a message has none. */
    method FromUrl(text: Option<string>) returns (outcome: Outcome<Error>)
      modifies this
      ensures Fields.Updated(Snapshot(), outcome) == Fields.FromUrl(old(Snapshot()), text)
    {
      var u := Fields.FromUrl(Snapshot(), text);
      FromUrlKeepsKind(Snapshot(), text);
      Load(u.node);
      outcome := u.outcome;
    }

    /** `fromArray` (core.ts lines 197-200 and bytes.ts); a message has none. */
    method FromArray(v: Stored<Fields.Elem>) returns (outcome: Outcome<Error>)
      modifies this
      ensures Fields.Updated(Snapshot(), outcome) == Fields.FromArray(old(Snapshot()), v)
    {
      var u := Fields.FromArray(Snapshot(), v);
      FromArrayKeepsKind(Snapshot(), v);
      Load(u.node);
      outcome := u.outcome;
    }
  }

  /** The setter of a field that is not a message keeps it of its class. */
  lemma SetValueKeepsKind(n: Fields.Node, input: Fields.Input)
    requires !n.kind.Message?
    ensures Fields.SetValue(n, input).node.kind == n.kind
  {
  }

  lemma FromUrlKeepsKind(n: Fields.Node, text: Option<string>)
    ensures Fields.FromUrl(n, text).node.kind == n.kind
  {
    match n.kind
    case Message =>
    case Reserved =>
    case Enum(_) =>
    case Bytes =>
      var cleared := if Fields.EmptyText(text) then n.(value := Absent) else n;
      var p := ParseUrlCore(cleared.options, text);
      var parsed := cleared.(options := p.options);
      if p.result.Success? && Fields.DecodeText(parsed, p.result.value).Success? {
        SetValueKeepsKind(parsed, Fields.Value(Fields.DecodeText(parsed, p.result.value).value));
      }
    case _ =>
      if !n.options.repeated && !Fields.EmptyText(text) {
        var p := ParseUrlCore(n.options, text);
        var parsed := n.(options := p.options);
        if p.result.Success? && Fields.DecodeText(parsed, p.result.value).Success? {
          SetValueKeepsKind(parsed, Fields.Value(Fields.DecodeText(parsed, p.result.value).value));
        }
      }
  }

  lemma FromArrayKeepsKind(n: Fields.Node, v: Stored<Fields.Elem>)
    ensures Fields.FromArray(n, v).node.kind == n.kind
  {
    if !n.kind.Message? && !n.kind.Reserved? {
      if n.kind.Bytes? && !v.Absent? && Fields.DecodeBase64(v).Success? {
        SetValueKeepsKind(n, Fields.Value(Fields.DecodeBase64(v).value));
      } else if !n.kind.Bytes? {
        SetValueKeepsKind(n, Fields.Value(v));
      }
    }
  }

  /** One step of clearing the children of `n`. */
  lemma ClearStep(n: Fields.Node, i: nat, done: seq<Fields.Entry>, asWritten: bool)
    requires i < |n.children| && |done| == i
    ensures var u := Fields.ClearWith(n.children[i].field, asWritten);
      var done' := done + [n.children[i].(field := u.node)];
      Fields.ClearChildren(n, i, done, asWritten) == if u.outcome.Fail? then Fields.Updated(n.(children := done' + n.children[i + 1..]), u.outcome) else Fields.ClearChildren(n, i + 1, done', asWritten)
  {
  }

  /** Replacing entry `i` joins the entries before it, the new entry and the rest. */
  lemma Splice(cs: seq<Fields.Entry>, i: nat, e: Fields.Entry)
    requires i < |cs|
    ensures cs[i := e][..i + 1] == cs[..i] + [e]
    ensures cs[i := e] == cs[..i] + [e] + cs[i + 1..]
  {
  }
}

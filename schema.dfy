/**
 * `ProtobufParser.create`: the expansion of a top-level message definition of
 * a protobuf JSON descriptor into the description its fields are built from.
 *
 * The description is kept flat, keyed by paths: the path `[k1, k2]` is the
 * entry `k2` of the `fields` of the entry `k1`, which is where lodash's
 * `_.set(newDefinition, "k1.fields.k2...", ...)` writes. A field of one of the
 * fifteen primitive types is copied as it is; any other type is looked up in
 * the `nested` definitions of the message that holds the field and then in the
 * descriptor's top level, and becomes an enum (its `values`) or a message (its
 * field keys, whose entries lie one level further down).
 *
 * `Locate` says, for every path, what the expansion holds there; `Build`, the
 * source's worklist loop that expands one level per pass, is proved to reach
 * exactly that, and `ProtobufParser` adds the per-name cache.
 */
module Schema {
  import opened Wrappers

  /** A field of a message definition: `rule` ("required", "repeated"), `type` and `id`. */
  datatype FieldDef = FieldDef(rule: Option<string>, typeName: string, id: int)

  datatype FieldEntry = FieldEntry(key: string, def: FieldDef)

  datatype EnumValue = EnumValue(name: string, code: int)

  /**
   * One definition of the descriptor: a message has `fields`, an enum has
   * `values`, and either may have `nested` definitions (an absent `nested` is
   * the empty list). JSON objects are lists of entries in key order.
   */
  datatype Definition = Definition(fields: Option<seq<FieldEntry>>, nested: seq<NamedDefinition>, values: Option<seq<EnumValue>>)

  datatype NamedDefinition = NamedDefinition(name: string, definition: Definition)

  /** The three errors `create` raises (the messages name the type; the model does not). */
  datatype Error = NonExistentField | NotAMessage | NonExistentType

  /** `staticFields`: the types that need no expansion. */
  const StaticTypes: seq<string> :=
    ["bool", "bytes", "double", "fixed32", "fixed64", "float", "int32", "int64",
     "sfixed32", "sfixed64", "sint32", "sint64", "string", "uint32", "uint64"]

  predicate IsStatic(t: string) {
    t in StaticTypes
  }

  /** `for (key in definition.fields)` visits nothing when `fields` is absent. */
  function FieldsOf(d: Definition): seq<FieldEntry> {
    if d.fields.Some? then d.fields.value else []
  }

  /** `Object.keys(fields)`. */
  function Keys(fs: seq<FieldEntry>): seq<string> {
    seq(|fs|, j requires 0 <= j < |fs| => fs[j].key)
  }

  predicate DistinctKeys(fs: seq<FieldEntry>) {
    forall i, j :: 0 <= i < j < |fs| ==> fs[i].key != fs[j].key
  }

  /** The keys of every JSON object of fields are distinct, here and in every nested definition. */
  predicate WellKeyed(d: Definition) {
    DistinctKeys(FieldsOf(d)) && forall i :: 0 <= i < |d.nested| ==> WellKeyed(d.nested[i].definition)
  }

  predicate Keyed(global: map<string, Definition>) {
    forall t :: t in global ==> WellKeyed(global[t])
  }

  /** Every entry of `fs` is the one `fields[key]` finds. */
  predicate Indexed(fs: seq<FieldEntry>) {
    forall j :: 0 <= j < |fs| ==> FieldAt(fs, fs[j].key) == Some(fs[j].def)
  }

  /** Position of the entry `k` of `fs`, or |fs| when there is none. */
  function FieldIndex(fs: seq<FieldEntry>, k: string): (j: nat)
    ensures j <= |fs|
    ensures forall i :: 0 <= i < j ==> fs[i].key != k
    ensures j < |fs| ==> fs[j].key == k
  {
    if fs == [] then 0 else if fs[0].key == k then 0 else 1 + FieldIndex(fs[1..], k)
  }

  /** `fields[k]`. */
  function FieldAt(fs: seq<FieldEntry>, k: string): Option<FieldDef> {
    var j := FieldIndex(fs, k);
    if j < |fs| then Some(fs[j].def) else None
  }

  function NestedIndex(ns: seq<NamedDefinition>, t: string): (j: nat)
    ensures j <= |ns|
    ensures forall i :: 0 <= i < j ==> ns[i].name != t
    ensures j < |ns| ==> ns[j].name == t
  {
    if ns == [] then 0 else if ns[0].name == t then 0 else 1 + NestedIndex(ns[1..], t)
  }

  /** `nestedKeys.includes(t) ? nested[t] : undefined`. */
  function NestedLookup(ns: seq<NamedDefinition>, t: string): (r: Option<Definition>)
    ensures r.Some? <==> exists i :: 0 <= i < |ns| && ns[i].name == t
  {
    var j := NestedIndex(ns, t);
    if j < |ns| then Some(ns[j].definition) else None
  }

  /** The definition a type name refers to: the enclosing message's `nested` first, then the top level. */
  function Resolve(global: map<string, Definition>, nested: seq<NamedDefinition>, t: string): Option<Definition> {
    match NestedLookup(nested, t)
    case Some(d) => Some(d)
    case None => if t in global then Some(global[t]) else None
  }

  /** What the expansion makes of one field: nothing, a copy, an unknown type, or a definition to expand. */
  datatype Site = Missing | Copy(f: FieldDef) | Unknown(f: FieldDef) | Expand(f: FieldDef, d: Definition)

  function Classify(global: map<string, Definition>, nested: seq<NamedDefinition>, f: FieldDef): Site {
    if IsStatic(f.typeName) then Copy(f)
    else
      match Resolve(global, nested, f.typeName)
      case None => Unknown(f)
      case Some(d) => Expand(f, d)
  }

  /**
   * The site at path `p` of the expansion of `root`: the field named by the
   * last key of `p` in the message at the rest of `p`, classified with that
   * message's `nested` definitions.
   */
  function Locate(global: map<string, Definition>, root: Definition, p: seq<string>): Site
    decreases |p|, 0
  {
    if p == [] then Missing
    else
      match Scope(global, root, p[..|p| - 1])
      case None => Missing
      case Some(d) =>
        match FieldAt(FieldsOf(d), p[|p| - 1])
        case None => Missing
        case Some(f) => Classify(global, d.nested, f)
  }

  /** The message definition whose fields lie under path `q`: `root` for [], else the message expanded at `q`. */
  function Scope(global: map<string, Definition>, root: Definition, q: seq<string>): Option<Definition>
    decreases |q|, 1
  {
    if q == [] then Some(root)
    else
      match Locate(global, root, q)
      case Expand(_, d) => if d.values.None? then Some(d) else None
      case _ => None
  }

  /** One entry of the description; the placeholder `{type: "??", id, rule}` marks a site not yet expanded. */
  datatype Desc =
    | Copied(field: FieldDef)
    | Placeholder(id: int, rule: Option<string>)
    | EnumDesc(id: int, rule: Option<string>, values: seq<EnumValue>)
    | MessageDesc(id: int, rule: Option<string>, keys: seq<string>)

  /** The result of `create` before `from`: the top-level keys and every entry by path. */
  datatype Description = Description(keys: seq<string>, nodes: map<seq<string>, Desc>)

  predicate Present(s: Site) {
    s.Copy? || s.Expand?
  }

  /** The entry of a site on the deepest level reached so far. */
  function Pending(s: Site): Desc
    requires Present(s)
  {
    if s.Copy? then Copied(s.f) else Placeholder(s.f.id, s.f.rule)
  }

  /** The entry of a site once expanded: an enum keeps `id` and `rule` and gains `values`, a message gains its field keys. */
  function Final(s: Site): Desc
    requires Present(s)
  {
    if s.Copy? then Copied(s.f)
    else if s.d.values.Some? then EnumDesc(s.f.id, s.f.rule, s.d.values.value)
    else MessageDesc(s.f.id, s.f.rule, Keys(FieldsOf(s.d)))
  }

  /** A full expansion of `root`: an entry at exactly the sites that are present, each expanded, and no unknown type. */
  ghost predicate Describes(global: map<string, Definition>, root: Definition, r: Description) {
    r.keys == Keys(FieldsOf(root))
    && (forall q :: q in r.nodes <==> Present(Locate(global, root, q)))
    && (forall q :: q in r.nodes ==> r.nodes[q] == Final(Locate(global, root, q)))
    && (forall q :: !Locate(global, root, q).Unknown?)
  }

  /** A full expansion found within `fuel` passes: no site lies deeper than `fuel + 1`. */
  ghost predicate BuiltWithin(global: map<string, Definition>, root: Definition, fuel: nat, r: Description) {
    Describes(global, root, r) && forall q :: |q| > fuel + 1 ==> Locate(global, root, q) == Missing
  }

  /** After `fuel` passes the loop still has sites to expand, and no type met so far was unknown. */
  ghost predicate Unfinished(global: map<string, Definition>, root: Definition, fuel: nat) {
    (forall q :: 1 <= |q| <= fuel + 1 ==> !Locate(global, root, q).Unknown?)
    && exists q :: |q| == fuel + 1 && Locate(global, root, q).Expand?
  }

  /** What `create` ends with: a description, an error, or (the loop being cut after `fuel` passes) nothing yet. */
  datatype Expansion = Built(description: Description) | Refused(error: Error) | OutOfFuel

  /** An entry of `expansions` with its entry of `expansionDefinitions`. */
  datatype Item = Item(path: seq<string>, definition: Definition)

  lemma PathsSnoc(work: seq<Item>, i: nat)
    requires i < |work|
    ensures Paths(work[..i + 1]) == Paths(work[..i]) + [work[i].path]
  {
  }

  lemma PathsAll(work: seq<Item>)
    ensures Paths(work[..|work|]) == Paths(work)
  {
    assert work[..|work|] == work;
  }

  function Paths(work: seq<Item>): (ps: seq<seq<string>>)
    ensures |ps| == |work| && forall k :: 0 <= k < |work| ==> ps[k] == work[k].path
  {
    seq(|work|, k requires 0 <= k < |work| => work[k].path)
  }

  // ---------------------------------------------------------------- loop states

  /** `Locate` as a function value, so that the loop states below do not unfold it. */
  function Loc(global: map<string, Definition>, root: Definition): seq<string> -> Site {
    q => Locate(global, root, q)
  }

  /** The items of `work` are sites at depth `layer + 1` to be expanded with their definitions. */
  ghost predicate WorkSites(loc: seq<string> -> Site, layer: nat, work: seq<Item>) {
    forall k :: 0 <= k < |work| ==> WorkItem(loc, layer, work[k])
  }

  /** An entry of `expansions` and its definition: a site at depth `layer + 1` to expand with that definition. */
  ghost predicate WorkItem(loc: seq<string> -> Site, layer: nat, item: Item) {
    |item.path| == layer + 1 && loc(item.path).Expand? && loc(item.path).d == item.definition
  }

  /** The state when `layer` passes are done: every site down to depth `layer + 1`, the deepest as placeholders, all listed in `work`. */
  ghost predicate Layer(loc: seq<string> -> Site, layer: nat, nodes: map<seq<string>, Desc>, work: seq<Item>) {
    (forall q :: q in nodes <==> 1 <= |q| <= layer + 1 && Present(loc(q)))
    && (forall q :: q in nodes ==> nodes[q] == if |q| == layer + 1 then Pending(loc(q)) else Final(loc(q)))
    && (forall q :: 1 <= |q| <= layer + 1 ==> !loc(q).Unknown?)
    && WorkSites(loc, layer, work)
    && (forall q :: |q| == layer + 1 && loc(q).Expand? ==> q in Paths(work))
  }

  /** Every entry lies at a present site no deeper than `depth`. */
  ghost predicate Bounded(loc: seq<string> -> Site, depth: nat, nodes: map<seq<string>, Desc>) {
    forall q :: q in nodes ==> 1 <= |q| <= depth && Present(loc(q))
  }

  /** Every present site down to depth `layer + 1`, and every present field of an expanded site, has an entry. */
  ghost predicate Covered(loc: seq<string> -> Site, layer: nat, nodes: map<seq<string>, Desc>, done: seq<seq<string>>) {
    (forall q :: 1 <= |q| <= layer + 1 && Present(loc(q)) ==> q in nodes)
    && (forall q :: |q| == layer + 2 && q[..layer + 1] in done && Present(loc(q)) ==> q in nodes)
  }

  /** The entries above the current level are final, those of the current level final once expanded, the rest placeholders. */
  ghost predicate Settled(loc: seq<string> -> Site, layer: nat, nodes: map<seq<string>, Desc>, done: seq<seq<string>>)
    requires Bounded(loc, layer + 2, nodes)
  {
    (forall q :: q in nodes && |q| <= layer ==> nodes[q] == Final(loc(q)))
    && (forall q :: q in nodes && |q| == layer + 1 ==> nodes[q] == if q in done then Final(loc(q)) else Pending(loc(q)))
    && (forall q :: q in nodes && |q| == layer + 2 ==> nodes[q] == Pending(loc(q)))
  }

  /** Every placeholder of the next level is listed in `next`. */
  ghost predicate Queued(loc: seq<string> -> Site, layer: nat, nodes: map<seq<string>, Desc>, next: seq<Item>) {
    (forall q :: q in nodes && |q| == layer + 2 && loc(q).Expand? ==> q in Paths(next))
    && WorkSites(loc, layer + 1, next)
  }

  /** No unknown type down to the current level or among the fields of an expanded site; `done` holds sites of the current level. */
  ghost predicate Known(loc: seq<string> -> Site, layer: nat, done: seq<seq<string>>) {
    (forall q :: 1 <= |q| <= layer + 1 ==> !loc(q).Unknown?)
    && (forall q :: |q| == layer + 2 && q[..layer + 1] in done ==> !loc(q).Unknown?)
    && (forall q :: q in done ==> |q| == layer + 1 && loc(q).Expand?)
  }

  /**
   * The state inside pass `layer` once the sites in `done` are expanded: their
   * fields are in place one level down, as placeholders, and those to expand
   * are listed in `next`.
   */
  ghost predicate Mid(loc: seq<string> -> Site, layer: nat, nodes: map<seq<string>, Desc>, done: seq<seq<string>>, next: seq<Item>) {
    Bounded(loc, layer + 2, nodes) && Covered(loc, layer, nodes, done) && Settled(loc, layer, nodes, done)
    && Queued(loc, layer, nodes, next) && Known(loc, layer, done)
  }

  // ---------------------------------------------------------------- the expansion

  /**
   * Lines 68-150 of `create`: the top-level definition must exist and have
   * `fields`; its fields are copied or turned into placeholders, then each pass
   * of the loop expands every placeholder of the deepest level, until none is
   * left. Any type that is neither nested in the enclosing message nor at the
   * top level is an error. The loop runs at most `fuel` passes.
   */
  method Build(global: map<string, Definition>, name: string, fuel: nat) returns (r: Expansion)
    requires Keyed(global)
    ensures name !in global ==> r == Refused(NonExistentField)
    ensures name in global && global[name].fields.None? ==> r == Refused(NotAMessage)
    ensures name in global && global[name].fields.Some? ==>
      (r.Built? ==> BuiltWithin(global, global[name], fuel, r.description))
      && (r.Refused? ==> r.error == NonExistentType && exists q :: Locate(global, global[name], q).Unknown?)
      && (r.OutOfFuel? ==> Unfinished(global, global[name], fuel))
  {
    if name !in global {
      return Refused(NonExistentField);
    }
    var root := global[name];
    if root.fields.None? {
      return Refused(NotAMessage);
    }
    DistinctIndexed(root.fields.value);
    var nodes, work, failed := TopLevel(global, root);
    if failed {
      return Refused(NonExistentType);
    }
    var layer: nat := 0;
    while work != []
      invariant Layer(Loc(global, root), layer, nodes, work)
      invariant layer <= fuel
      decreases fuel - layer
    {
      if layer == fuel {
        Stalled(global, root, layer, nodes, work);
        return OutOfFuel;
      }
      nodes, work, failed := Pass(global, root, layer, nodes, work);
      if failed {
        return Refused(NonExistentType);
      }
      layer := layer + 1;
    }
    Complete(global, root, layer, fuel, nodes);
    return Built(Description(Keys(root.fields.value), nodes));
  }

  /** Lines 79-103: the top-level fields, copied or as placeholders, and the worklist of those to expand. */
  method TopLevel(global: map<string, Definition>, root: Definition) returns (nodes: map<seq<string>, Desc>, work: seq<Item>, failed: bool)
    requires root.fields.Some? && Indexed(root.fields.value)
    ensures !failed ==> Layer(Loc(global, root), 0, nodes, work)
    ensures failed ==> exists q :: Locate(global, root, q).Unknown?
  {
    var fs := root.fields.value;
    nodes, work := map[], [];
    for j := 0 to |fs|
      invariant TopState(Loc(global, root), nodes, work)
      invariant forall i :: 0 <= i < j ==> [fs[i].key] in nodes
    {
      ghost var before := nodes;
      nodes, work, failed := TopField(global, root, nodes, work, j);
      if failed {
        return;
      }
      TopGrown(before, nodes, fs, j);
    }
    TopKeys(global, root);
    FirstLayer(Loc(global, root), nodes, work);
    failed := false;
  }

  /** The entries of the top-level fields met so far, all placeholders or copies, and the worklist of the placeholders. */
  ghost predicate TopState(loc: seq<string> -> Site, nodes: map<seq<string>, Desc>, work: seq<Item>) {
    (forall q :: q in nodes ==> |q| == 1 && Present(loc(q)) && nodes[q] == Pending(loc(q)))
    && (forall q :: q in nodes && loc(q).Expand? ==> q in Paths(work))
    && WorkSites(loc, 0, work)
  }

  /** The top-level field at index `j` (lines 82-102): copied, or a placeholder queued for expansion. */
  method TopField(global: map<string, Definition>, root: Definition, nodes: map<seq<string>, Desc>, work: seq<Item>, j: nat)
    returns (nodes': map<seq<string>, Desc>, work': seq<Item>, failed: bool)
    requires root.fields.Some? && Indexed(root.fields.value) && j < |root.fields.value|
    requires TopState(Loc(global, root), nodes, work)
    ensures !failed ==> TopState(Loc(global, root), nodes', work') && nodes.Keys <= nodes'.Keys && [root.fields.value[j].key] in nodes'
    ensures failed ==> exists q :: Locate(global, root, q).Unknown?
  {
    var e := root.fields.value[j];
    ChildSite(global, root, [], root, j);
    assert [] + [e.key] == [e.key];
    if IsStatic(e.def.typeName) {
      AddTop(Loc(global, root), nodes, work, [e.key], Copied(e.def), work);
      return nodes[[e.key] := Copied(e.def)], work, false;
    }
    var resolved := Resolve(global, root.nested, e.def.typeName);
    if resolved.None? {
      assert Locate(global, root, [e.key]).Unknown?;
      return nodes, work, true;
    }
    AddTop(Loc(global, root), nodes, work, [e.key], Placeholder(e.def.id, e.def.rule), work + [Item([e.key], resolved.value)]);
    return nodes[[e.key] := Placeholder(e.def.id, e.def.rule)], work + [Item([e.key], resolved.value)], false;
  }

  /** One pass of the `while` loop (lines 105-150): every entry of `expansions` is expanded, and the next level queued. */
  method Pass(global: map<string, Definition>, root: Definition, layer: nat, nodes: map<seq<string>, Desc>, work: seq<Item>)
    returns (nodes': map<seq<string>, Desc>, next: seq<Item>, failed: bool)
    requires Keyed(global) && WellKeyed(root)
    requires Layer(Loc(global, root), layer, nodes, work)
    ensures !failed ==> Layer(Loc(global, root), layer + 1, nodes', next)
    ensures failed ==> exists q :: Locate(global, root, q).Unknown?
  {
    StartPass(Loc(global, root), layer, nodes, work);
    nodes', next := nodes, [];
    for i := 0 to |work|
      invariant Mid(Loc(global, root), layer, nodes', Paths(work[..i]), next)
    {
      PathsSnoc(work, i);
      nodes', next, failed := ExpandItem(global, root, layer, nodes', Paths(work[..i]), next, work[i]);
      if failed {
        return;
      }
    }
    PathsAll(work);
    PassEnd(global, root, layer, nodes, nodes', work, next);
    failed := false;
  }

  /**
   * One entry of `expansions` (lines 109-146): an enum becomes `{type: "enum",
   * values}`, a message `{type: "message", fields}` with each of its fields
   * copied or turned into a placeholder to expand in the next pass.
   */
  method ExpandItem(global: map<string, Definition>, root: Definition, layer: nat, nodes: map<seq<string>, Desc>,
                    ghost done: seq<seq<string>>, next: seq<Item>, item: Item)
    returns (nodes': map<seq<string>, Desc>, next': seq<Item>, failed: bool)
    requires Keyed(global) && WellKeyed(root)
    requires Mid(Loc(global, root), layer, nodes, done, next)
    requires WorkItem(Loc(global, root), layer, item)
    ensures !failed ==> Mid(Loc(global, root), layer, nodes', done + [item.path], next')
    ensures failed ==> exists q :: Locate(global, root, q).Unknown?
  {
    var p, d := item.path, item.definition;
    PendingEntry(Loc(global, root), layer, nodes, done, next, p);
    var id, rule := nodes[p].id, nodes[p].rule;
    if d.values.Some? {
      EnumChildren(global, root, p);
      EnumDone(Loc(global, root), layer, nodes, done, next, p, EnumDesc(id, rule, d.values.value));
      return nodes[p := EnumDesc(id, rule, d.values.value)], next, false;
    }
    assert Scope(global, root, p) == Some(d);
    ScopeKeyed(global, root, p);
    DistinctIndexed(FieldsOf(d));
    nodes', next', failed := ExpandMessage(global, root, layer, nodes, done, next, p, d, MessageDesc(id, rule, Keys(FieldsOf(d))));
  }

  /** Lines 116-145: the fields of the message `d` at `p`, one level down, and `{type: "message", fields}` at `p`. */
  method ExpandMessage(global: map<string, Definition>, root: Definition, layer: nat, nodes: map<seq<string>, Desc>,
                       ghost done: seq<seq<string>>, next: seq<Item>, p: seq<string>, d: Definition, v: Desc)
    returns (nodes': map<seq<string>, Desc>, next': seq<Item>, failed: bool)
    requires Indexed(FieldsOf(d)) && Scope(global, root, p) == Some(d) && |p| == layer + 1
    requires Mid(Loc(global, root), layer, nodes, done, next)
    requires Locate(global, root, p).Expand? && p in nodes && v == Final(Locate(global, root, p))
    ensures !failed ==> Mid(Loc(global, root), layer, nodes', done + [p], next')
    ensures failed ==> exists q :: Locate(global, root, q).Unknown?
  {
    var fs := FieldsOf(d);
    nodes', next' := nodes, next;
    for j := 0 to |fs|
      invariant Mid(Loc(global, root), layer, nodes', done, next')
      invariant forall i :: 0 <= i < j ==> p + [fs[i].key] in nodes'
    {
      ghost var before := nodes';
      nodes', next', failed := AddField(global, root, layer, nodes', done, next', p, d, j);
      if failed {
        return;
      }
      Grown(before, nodes', p, fs, j);
    }
    MessageChildren(global, root, p, d);
    MessageDone(Loc(global, root), layer, nodes', done, next', p, fs, v);
    nodes' := nodes'[p := v];
    failed := false;
  }

  lemma TopGrown(before: map<seq<string>, Desc>, after: map<seq<string>, Desc>, fs: seq<FieldEntry>, j: nat)
    requires j < |fs| && forall i :: 0 <= i < j ==> [fs[i].key] in before
    requires before.Keys <= after.Keys && [fs[j].key] in after
    ensures forall i :: 0 <= i < j + 1 ==> [fs[i].key] in after
  {
  }

  lemma Grown(before: map<seq<string>, Desc>, after: map<seq<string>, Desc>, p: seq<string>, fs: seq<FieldEntry>, j: nat)
    requires j < |fs| && forall i :: 0 <= i < j ==> p + [fs[i].key] in before
    requires before.Keys <= after.Keys && p + [fs[j].key] in after
    ensures forall i :: 0 <= i < j + 1 ==> p + [fs[i].key] in after
  {
  }
  /** The field at index `j` of the message `d` at `p` (lines 129-143): copied, or a placeholder queued for the next pass. */
  method AddField(global: map<string, Definition>, root: Definition, layer: nat, nodes: map<seq<string>, Desc>,
                  ghost done: seq<seq<string>>, next: seq<Item>, p: seq<string>, d: Definition, j: nat)
    returns (nodes': map<seq<string>, Desc>, next': seq<Item>, failed: bool)
    requires Indexed(FieldsOf(d)) && Scope(global, root, p) == Some(d) && |p| == layer + 1 && j < |FieldsOf(d)|
    requires Mid(Loc(global, root), layer, nodes, done, next)
    ensures !failed ==> nodes.Keys <= nodes'.Keys && p + [FieldsOf(d)[j].key] in nodes'
    ensures !failed ==> Mid(Loc(global, root), layer, nodes', done, next')
    ensures failed ==> exists q :: Locate(global, root, q).Unknown?
  {
    var e := FieldsOf(d)[j];
    var q := p + [e.key];
    ChildSite(global, root, p, d, j);
    if IsStatic(e.def.typeName) {
      AddChild(Loc(global, root), layer, nodes, done, next, q, Copied(e.def), next);
      return nodes[q := Copied(e.def)], next, false;
    }
    var resolved := Resolve(global, d.nested, e.def.typeName);
    if resolved.None? {
      assert Locate(global, root, q).Unknown?;
      return nodes, next, true;
    }
    var grown := next + [Item(q, resolved.value)];
    AddChild(Loc(global, root), layer, nodes, done, next, q, Placeholder(e.def.id, e.def.rule), grown);
    return nodes[q := Placeholder(e.def.id, e.def.rule)], grown, false;
  }

  // ---------------------------------------------------------------- lemmas about sites

  /** The site of a field of the message at `p` is the field classified with that message's `nested`. */
  lemma LocateChild(global: map<string, Definition>, root: Definition, p: seq<string>, k: string)
    ensures Scope(global, root, p).None? ==> Locate(global, root, p + [k]) == Missing
    ensures Scope(global, root, p).Some? && FieldAt(FieldsOf(Scope(global, root, p).value), k).None? ==> Locate(global, root, p + [k]) == Missing
    ensures Scope(global, root, p).Some? && FieldAt(FieldsOf(Scope(global, root, p).value), k).Some? ==>
      Locate(global, root, p + [k]) == Classify(global, Scope(global, root, p).value.nested, FieldAt(FieldsOf(Scope(global, root, p).value), k).value)
  {
    assert (p + [k])[..|p|] == p && (p + [k])[|p|] == k;
  }

  /** A site below the top level lies inside an expanded message one level up. */
  lemma ParentSite(global: map<string, Definition>, root: Definition, q: seq<string>)
    requires |q| >= 2 && Locate(global, root, q) != Missing
    ensures Locate(global, root, q[..|q| - 1]).Expand? && Locate(global, root, q[..|q| - 1]).d.values.None?
    ensures Scope(global, root, q[..|q| - 1]) == Some(Locate(global, root, q[..|q| - 1]).d)
  {
  }

  /** With distinct keys, `fields[key]` finds each entry. */
  lemma DistinctIndexed(fs: seq<FieldEntry>)
    requires DistinctKeys(fs)
    ensures Indexed(fs)
  {
    forall j | 0 <= j < |fs|
      ensures FieldAt(fs, fs[j].key) == Some(fs[j].def)
    {
      var i := FieldIndex(fs, fs[j].key);
      assert i < |fs| && fs[i].key == fs[j].key;
    }
  }

  /** The field named `k` of a definition with a field `k` sits at some index. */
  lemma FieldKeyIndex(fs: seq<FieldEntry>, k: string) returns (j: nat)
    requires FieldAt(fs, k).Some?
    ensures j < |fs| && fs[j].key == k && FieldAt(fs, k) == Some(fs[j].def)
  {
    j := FieldIndex(fs, k);
  }

  lemma NestedKeyed(ns: seq<NamedDefinition>, t: string)
    requires forall i :: 0 <= i < |ns| ==> WellKeyed(ns[i].definition)
    requires NestedLookup(ns, t).Some?
    ensures WellKeyed(NestedLookup(ns, t).value)
  {
  }

  /** Every message reached by the expansion has its field keys distinct. */
  lemma {:induction false} ScopeKeyed(global: map<string, Definition>, root: Definition, q: seq<string>)
    requires Keyed(global) && WellKeyed(root)
    requires Scope(global, root, q).Some?
    ensures WellKeyed(Scope(global, root, q).value)
    decreases |q|
  {
    if q != [] {
      var parent := q[..|q| - 1];
      var d := Scope(global, root, parent).value;
      ScopeKeyed(global, root, parent);
      var f := FieldAt(FieldsOf(d), q[|q| - 1]).value;
      if NestedLookup(d.nested, f.typeName).Some? {
        NestedKeyed(d.nested, f.typeName);
      }
    }
  }

  /** Every top-level site is the site of one of the top-level fields. */
  lemma TopKeys(global: map<string, Definition>, root: Definition)
    requires root.fields.Some?
    ensures forall q :: |q| == 1 && Locate(global, root, q) != Missing ==>
      exists i :: 0 <= i < |root.fields.value| && q == [root.fields.value[i].key]
  {
    var fs := root.fields.value;
    forall q | |q| == 1 && Locate(global, root, q) != Missing
      ensures exists i :: 0 <= i < |fs| && q == [fs[i].key]
    {
      LocateChild(global, root, [], q[0]);
      assert [] + [q[0]] == q;
      var j := FieldKeyIndex(fs, q[0]);
      assert q == [fs[j].key];
    }
  }

  /** The site of the field at index `j` of the message `d` expanded at `p`. */
  lemma ChildSite(global: map<string, Definition>, root: Definition, p: seq<string>, d: Definition, j: nat)
    requires Scope(global, root, p) == Some(d) && Indexed(FieldsOf(d)) && j < |FieldsOf(d)|
    ensures Locate(global, root, p + [FieldsOf(d)[j].key]) == Classify(global, d.nested, FieldsOf(d)[j].def)
  {
    LocateChild(global, root, p, FieldsOf(d)[j].key);
  }

  /** An enum has nothing under it. */
  lemma EnumChildren(global: map<string, Definition>, root: Definition, p: seq<string>)
    requires |p| >= 1 && Locate(global, root, p).Expand? && Locate(global, root, p).d.values.Some?
    ensures forall q :: |q| == |p| + 1 && q[..|p|] == p ==> Locate(global, root, q) == Missing
  {
    forall q | |q| == |p| + 1 && q[..|p|] == p
      ensures Locate(global, root, q) == Missing
    {
      assert q == p + [q[|p|]];
      LocateChild(global, root, p, q[|p|]);
    }
  }

  /** What lies under a message is the site of one of its fields. */
  lemma MessageChildren(global: map<string, Definition>, root: Definition, p: seq<string>, d: Definition)
    requires Scope(global, root, p) == Some(d)
    ensures forall q :: |q| == |p| + 1 && q[..|p|] == p && Locate(global, root, q) != Missing ==>
      exists i :: 0 <= i < |FieldsOf(d)| && q == p + [FieldsOf(d)[i].key]
  {
    forall q | |q| == |p| + 1 && q[..|p|] == p && Locate(global, root, q) != Missing
      ensures exists i :: 0 <= i < |FieldsOf(d)| && q == p + [FieldsOf(d)[i].key]
    {
      var k := q[|p|];
      assert q == p + [k];
      LocateChild(global, root, p, k);
      var j := FieldKeyIndex(FieldsOf(d), k);
    }
  }

  /** Whatever lies at depth `layer + 2` lies under a site in `done` when `done` holds every site to expand at depth `layer + 1`. */
  lemma Parents(global: map<string, Definition>, root: Definition, layer: nat, done: seq<seq<string>>)
    requires forall q :: |q| == layer + 1 && Locate(global, root, q).Expand? ==> q in done
    ensures forall q :: |q| == layer + 2 && Locate(global, root, q) != Missing ==> q[..layer + 1] in done
  {
    forall q | |q| == layer + 2 && Locate(global, root, q) != Missing
      ensures q[..layer + 1] in done
    {
      ParentSite(global, root, q);
      var parent := q[..|q| - 1];
      assert parent == q[..layer + 1];
      assert |parent| == layer + 1 && Locate(global, root, parent).Expand?;
    }
  }

  /** Once no site is left to expand at depth `layer + 1`, every deeper path is empty. */
  lemma DeepMissing(global: map<string, Definition>, root: Definition, layer: nat)
    requires forall q :: |q| == layer + 1 ==> !Locate(global, root, q).Expand?
    ensures forall q :: |q| > layer + 1 ==> Locate(global, root, q) == Missing
  {
    forall q | |q| > layer + 1
      ensures Locate(global, root, q) == Missing
    {
      DeepMissingAt(global, root, layer, q);
    }
  }

  lemma {:induction false} DeepMissingAt(global: map<string, Definition>, root: Definition, layer: nat, q: seq<string>)
    requires forall q :: |q| == layer + 1 ==> !Locate(global, root, q).Expand?
    requires |q| > layer + 1
    ensures Locate(global, root, q) == Missing
    decreases |q|
  {
    if Locate(global, root, q) != Missing {
      ParentSite(global, root, q);
      var parent := q[..|q| - 1];
      if |parent| > layer + 1 {
        DeepMissingAt(global, root, layer, parent);
      }
    }
  }

  // ---------------------------------------------------------------- lemmas about the loop states

  lemma AddTop(loc: seq<string> -> Site, nodes: map<seq<string>, Desc>, work: seq<Item>, q: seq<string>, v: Desc, work': seq<Item>)
    requires TopState(loc, nodes, work)
    requires |q| == 1 && Present(loc(q)) && v == Pending(loc(q))
    requires loc(q).Copy? ==> work' == work
    requires loc(q).Expand? ==> work' == work + [Item(q, loc(q).d)]
    ensures TopState(loc, nodes[q := v], work')
  {
    assert Paths(work') == if loc(q).Expand? then Paths(work) + [q] else Paths(work);
  }

  lemma FirstLayer(loc: seq<string> -> Site, nodes: map<seq<string>, Desc>, work: seq<Item>)
    requires TopState(loc, nodes, work)
    requires forall q :: |q| == 1 && loc(q) != Missing ==> q in nodes
    ensures Layer(loc, 0, nodes, work)
  {
  }

  /** The loop cut after `layer` passes with sites still to expand. */
  lemma Stalled(global: map<string, Definition>, root: Definition, layer: nat, nodes: map<seq<string>, Desc>, work: seq<Item>)
    requires Layer(Loc(global, root), layer, nodes, work) && work != []
    ensures Unfinished(global, root, layer)
  {
    assert Locate(global, root, work[0].path).Expand?;
  }

  /** The loop ended after `layer` passes: the description is complete. */
  lemma Complete(global: map<string, Definition>, root: Definition, layer: nat, fuel: nat, nodes: map<seq<string>, Desc>)
    requires Layer(Loc(global, root), layer, nodes, []) && layer <= fuel && root.fields.Some?
    ensures BuiltWithin(global, root, fuel, Description(Keys(root.fields.value), nodes))
  {
    DeepMissing(global, root, layer);
    assert Loc(global, root)([]) == Missing;
    Finished(Loc(global, root), layer, nodes);
  }

  lemma StartPass(loc: seq<string> -> Site, layer: nat, nodes: map<seq<string>, Desc>, work: seq<Item>)
    requires Layer(loc, layer, nodes, work)
    ensures Mid(loc, layer, nodes, Paths(work[..0]), [])
  {
    assert Paths(work[..0]) == [];
  }

  /** A pass that expanded every entry of `work` leaves the next level in the state `Layer` describes. */
  lemma PassEnd(global: map<string, Definition>, root: Definition, layer: nat, nodes: map<seq<string>, Desc>,
                nodes': map<seq<string>, Desc>, work: seq<Item>, next: seq<Item>)
    requires Layer(Loc(global, root), layer, nodes, work)
    requires Mid(Loc(global, root), layer, nodes', Paths(work), next)
    ensures Layer(Loc(global, root), layer + 1, nodes', next)
  {
    Parents(global, root, layer, Paths(work));
    EndPass(Loc(global, root), layer, nodes', work, next);
  }

  lemma EndPass(loc: seq<string> -> Site, layer: nat, nodes: map<seq<string>, Desc>, work: seq<Item>, next: seq<Item>)
    requires forall q :: |q| == layer + 1 && loc(q).Expand? ==> q in Paths(work)
    requires forall q :: |q| == layer + 2 && loc(q) != Missing ==> q[..layer + 1] in Paths(work)
    requires Mid(loc, layer, nodes, Paths(work), next)
    ensures Layer(loc, layer + 1, nodes, next)
  {
  }

  /** With an empty worklist the description is complete. */
  lemma Finished(loc: seq<string> -> Site, layer: nat, nodes: map<seq<string>, Desc>)
    requires Layer(loc, layer, nodes, [])
    requires loc([]) == Missing && forall q :: |q| > layer + 1 ==> loc(q) == Missing
    ensures forall q :: q in nodes <==> Present(loc(q))
    ensures forall q :: q in nodes ==> nodes[q] == Final(loc(q))
    ensures forall q :: |q| >= 1 ==> !loc(q).Unknown?
  {
  }

  lemma AddChild(loc: seq<string> -> Site, layer: nat, nodes: map<seq<string>, Desc>,
                 done: seq<seq<string>>, next: seq<Item>, q: seq<string>, v: Desc, next': seq<Item>)
    requires Mid(loc, layer, nodes, done, next)
    requires |q| == layer + 2 && Present(loc(q)) && v == Pending(loc(q))
    requires loc(q).Copy? ==> next' == next
    requires loc(q).Expand? ==> next' == next + [Item(q, loc(q).d)]
    ensures Mid(loc, layer, nodes[q := v], done, next')
  {
    BoundedPut(loc, layer + 2, nodes, q, v);
    CoveredPut(loc, layer, nodes, done, q, v);
    SettledChild(loc, layer, nodes, done, q, v);
    QueuedChild(loc, layer, nodes, next, q, v, next');
  }

  lemma EnumDone(loc: seq<string> -> Site, layer: nat, nodes: map<seq<string>, Desc>,
                 done: seq<seq<string>>, next: seq<Item>, p: seq<string>, v: Desc)
    requires Mid(loc, layer, nodes, done, next)
    requires |p| == layer + 1 && loc(p).Expand? && loc(p).d.values.Some? && v == Final(loc(p))
    requires forall q :: |q| == layer + 2 && q[..layer + 1] == p ==> loc(q) == Missing
    ensures Mid(loc, layer, nodes[p := v], done + [p], next)
  {
    SiteDone(loc, layer, nodes, done, next, p, v);
  }

  lemma MessageDone(loc: seq<string> -> Site, layer: nat, nodes: map<seq<string>, Desc>,
                    done: seq<seq<string>>, next: seq<Item>, p: seq<string>, fs: seq<FieldEntry>, v: Desc)
    requires Mid(loc, layer, nodes, done, next)
    requires |p| == layer + 1 && loc(p).Expand? && v == Final(loc(p))
    requires forall q :: |q| == layer + 2 && q[..layer + 1] == p && loc(q) != Missing ==> exists i :: 0 <= i < |fs| && q == p + [fs[i].key]
    requires forall i :: 0 <= i < |fs| ==> p + [fs[i].key] in nodes
    ensures Mid(loc, layer, nodes[p := v], done + [p], next)
  {
    forall q | |q| == layer + 2 && q[..layer + 1] == p
      ensures !loc(q).Unknown? && (Present(loc(q)) ==> q in nodes)
    {
      if loc(q) != Missing {
        var i :| 0 <= i < |fs| && q == p + [fs[i].key];
      }
    }
    SiteDone(loc, layer, nodes, done, next, p, v);
  }

  /** The site `p` of the current level still holds its placeholder, or its final entry, with the field's `id` and `rule`. */
  lemma PendingEntry(loc: seq<string> -> Site, layer: nat, nodes: map<seq<string>, Desc>,
                     done: seq<seq<string>>, next: seq<Item>, p: seq<string>)
    requires Mid(loc, layer, nodes, done, next)
    requires |p| == layer + 1 && loc(p).Expand?
    ensures p in nodes && !nodes[p].Copied? && nodes[p].id == loc(p).f.id && nodes[p].rule == loc(p).f.rule
  {
  }

  /** Marking the site `p` of the current level expanded, once its fields are in place. */
  lemma SiteDone(loc: seq<string> -> Site, layer: nat, nodes: map<seq<string>, Desc>,
                 done: seq<seq<string>>, next: seq<Item>, p: seq<string>, v: Desc)
    requires Mid(loc, layer, nodes, done, next)
    requires |p| == layer + 1 && loc(p).Expand? && v == Final(loc(p))
    requires forall q :: |q| == layer + 2 && q[..layer + 1] == p ==> !loc(q).Unknown? && (Present(loc(q)) ==> q in nodes)
    ensures Mid(loc, layer, nodes[p := v], done + [p], next)
  {
    BoundedPut(loc, layer + 2, nodes, p, v);
    CoveredDone(loc, layer, nodes, done, p, v);
    SettledDone(loc, layer, nodes, done, p, v);
    QueuedOther(loc, layer, nodes, next, p, v);
    KnownDone(loc, layer, done, p);
  }

  lemma BoundedPut(loc: seq<string> -> Site, depth: nat, nodes: map<seq<string>, Desc>, q: seq<string>, v: Desc)
    requires Bounded(loc, depth, nodes) && 1 <= |q| <= depth && Present(loc(q))
    ensures Bounded(loc, depth, nodes[q := v])
  {
  }

  lemma CoveredPut(loc: seq<string> -> Site, layer: nat, nodes: map<seq<string>, Desc>, done: seq<seq<string>>, q: seq<string>, v: Desc)
    requires Covered(loc, layer, nodes, done)
    ensures Covered(loc, layer, nodes[q := v], done)
  {
  }

  lemma SettledChild(loc: seq<string> -> Site, layer: nat, nodes: map<seq<string>, Desc>, done: seq<seq<string>>, q: seq<string>, v: Desc)
    requires Bounded(loc, layer + 2, nodes) && Settled(loc, layer, nodes, done)
    requires |q| == layer + 2 && Present(loc(q)) && v == Pending(loc(q))
    ensures Bounded(loc, layer + 2, nodes[q := v]) && Settled(loc, layer, nodes[q := v], done)
  {
    BoundedPut(loc, layer + 2, nodes, q, v);
  }

  lemma QueuedChild(loc: seq<string> -> Site, layer: nat, nodes: map<seq<string>, Desc>, next: seq<Item>, q: seq<string>, v: Desc, next': seq<Item>)
    requires Queued(loc, layer, nodes, next)
    requires |q| == layer + 2 && Present(loc(q))
    requires loc(q).Copy? ==> next' == next
    requires loc(q).Expand? ==> next' == next + [Item(q, loc(q).d)]
    ensures Queued(loc, layer, nodes[q := v], next')
  {
    assert Paths(next') == if loc(q).Expand? then Paths(next) + [q] else Paths(next);
  }

  lemma CoveredDone(loc: seq<string> -> Site, layer: nat, nodes: map<seq<string>, Desc>, done: seq<seq<string>>, p: seq<string>, v: Desc)
    requires Covered(loc, layer, nodes, done)
    requires |p| == layer + 1
    requires forall q :: |q| == layer + 2 && q[..layer + 1] == p && Present(loc(q)) ==> q in nodes
    ensures Covered(loc, layer, nodes[p := v], done + [p])
  {
  }

  lemma SettledDone(loc: seq<string> -> Site, layer: nat, nodes: map<seq<string>, Desc>, done: seq<seq<string>>, p: seq<string>, v: Desc)
    requires Bounded(loc, layer + 2, nodes) && Settled(loc, layer, nodes, done)
    requires |p| == layer + 1 && Present(loc(p)) && v == Final(loc(p))
    ensures Bounded(loc, layer + 2, nodes[p := v]) && Settled(loc, layer, nodes[p := v], done + [p])
  {
    BoundedPut(loc, layer + 2, nodes, p, v);
  }

  lemma QueuedOther(loc: seq<string> -> Site, layer: nat, nodes: map<seq<string>, Desc>, next: seq<Item>, p: seq<string>, v: Desc)
    requires Queued(loc, layer, nodes, next) && |p| == layer + 1
    ensures Queued(loc, layer, nodes[p := v], next)
  {
  }

  lemma KnownDone(loc: seq<string> -> Site, layer: nat, done: seq<seq<string>>, p: seq<string>)
    requires Known(loc, layer, done)
    requires |p| == layer + 1 && loc(p).Expand?
    requires forall q :: |q| == layer + 2 && q[..layer + 1] == p ==> !loc(q).Unknown?
    ensures Known(loc, layer, done + [p])
  {
  }

  // ---------------------------------------------------------------- the parser and its cache

  /** `ProtobufParser`: the descriptor's top-level definitions and `loadedDefinitions`, the expansions made so far. */
  class ProtobufParser {
    const definition: map<string, Definition>
    var loaded: map<string, Description>

    /** Every cached expansion is the full expansion of its top-level message. */
    ghost predicate Valid()
      reads this
    {
      Keyed(definition)
      && forall t :: t in loaded ==> t in definition && definition[t].fields.Some? && Describes(definition, definition[t], loaded[t])
    }

    /** Lines 46-52, with the descriptor's `nested` already parsed. */
    constructor (definition: map<string, Definition>)
      requires Keyed(definition)
      ensures Valid() && this.definition == definition && loaded == map[]
    {
      this.definition := definition;
      loaded := map[];
    }

    /**
     * `create` (lines 54-158): a cached expansion is reused; otherwise the
     * expansion is built and, when complete, cached under its name.
     */
    method Create(name: string, fuel: nat) returns (r: Expansion)
      requires Valid()
      modifies this
      ensures Valid()
      ensures r.Built? ==> name in definition && definition[name].fields.Some? && Describes(definition, definition[name], r.description)
      ensures name in old(loaded) ==> r == Built(old(loaded)[name]) && loaded == old(loaded)
      ensures name !in old(loaded) ==> loaded == if r.Built? then old(loaded)[name := r.description] else old(loaded)
      ensures name !in old(loaded) && name !in definition ==> r == Refused(NonExistentField)
      ensures name !in old(loaded) && name in definition && definition[name].fields.None? ==> r == Refused(NotAMessage)
      ensures r.Refused? && r.error == NonExistentType ==> exists q :: Locate(definition, definition[name], q).Unknown?
      ensures r.OutOfFuel? ==> Unfinished(definition, definition[name], fuel)
    {
      if name in loaded {
        return Built(loaded[name]);
      }
      r := Build(definition, name, fuel);
      if r.Built? {
        loaded := loaded[name := r.description];
      }
    }
  }

  // ---------------------------------------------------------------- properties of the expansion

  /** There is one full expansion of a message, so a cached one is the one a new `create` would build. */
  lemma DescribesUnique(global: map<string, Definition>, root: Definition, a: Description, b: Description)
    requires Describes(global, root, a) && Describes(global, root, b)
    ensures a == b
  {
    assert a.nodes.Keys == b.nodes.Keys;
    assert forall q :: q in a.nodes ==> a.nodes[q] == b.nodes[q];
    assert a.nodes == b.nodes;
  }

  /** `fields[k]` exists exactly for the keys of `fields`. */
  lemma FieldAtKeys(fs: seq<FieldEntry>, k: string)
    ensures FieldAt(fs, k).Some? <==> k in Keys(fs)
  {
    var j := FieldIndex(fs, k);
    if j < |fs| {
      assert Keys(fs)[j] == k;
    }
    if k in Keys(fs) {
      var i :| 0 <= i < |fs| && Keys(fs)[i] == k;
      assert fs[i].key == k;
      assert j <= i;
    }
  }

  /**
   * How one field of a message is resolved: a primitive type is copied; any
   * other type is taken from the enclosing message's `nested` first, then
   * from the top level, and is unknown when it is in neither.
   */
  lemma FieldResolution(global: map<string, Definition>, root: Definition, p: seq<string>, d: Definition, k: string, f: FieldDef)
    requires Scope(global, root, p) == Some(d) && FieldAt(FieldsOf(d), k) == Some(f)
    ensures IsStatic(f.typeName) ==> Locate(global, root, p + [k]) == Copy(f)
    ensures !IsStatic(f.typeName) && NestedLookup(d.nested, f.typeName).Some? ==>
      Locate(global, root, p + [k]) == Expand(f, NestedLookup(d.nested, f.typeName).value)
    ensures !IsStatic(f.typeName) && NestedLookup(d.nested, f.typeName).None? && f.typeName in global ==>
      Locate(global, root, p + [k]) == Expand(f, global[f.typeName])
    ensures !IsStatic(f.typeName) && NestedLookup(d.nested, f.typeName).None? && f.typeName !in global ==>
      Locate(global, root, p + [k]) == Unknown(f)
  {
    LocateChild(global, root, p, k);
  }

  /**
   * The `nested` definitions of a message are not visible to the fields of
   * its nested messages: with `A` holding `B` and `C` in `nested` and `B`
   * holding a field of type `C`, the field `b` of type `B` resolves but its
   * field `c` is unknown when `C` is not also a top-level definition.
   */
  lemma NoGrandparentLookup(global: map<string, Definition>, c: Definition)
    requires "C" !in global
    ensures var b := Definition(Some([FieldEntry("c", FieldDef(None, "C", 1))]), [], None);
      var a := Definition(Some([FieldEntry("b", FieldDef(None, "B", 1))]), [NamedDefinition("B", b), NamedDefinition("C", c)], None);
      Locate(global, a, ["b"]) == Expand(FieldDef(None, "B", 1), b)
      && Locate(global, a, ["b", "c"]) == Unknown(FieldDef(None, "C", 1))
  {
    var b := Definition(Some([FieldEntry("c", FieldDef(None, "C", 1))]), [], None);
    var a := Definition(Some([FieldEntry("b", FieldDef(None, "B", 1))]), [NamedDefinition("B", b), NamedDefinition("C", c)], None);
    assert "B" != "C" by { assert "B"[0] != "C"[0]; }
    assert !IsStatic("B") && !IsStatic("C") by { StaticNames(); }
    LocateChild(global, a, [], "b");
    assert [] + ["b"] == ["b"];
    assert Scope(global, a, ["b"]) == Some(b);
    LocateChild(global, a, ["b"], "c");
    assert ["b"] + ["c"] == ["b", "c"];
  }

  /** None of the fifteen primitive names is a single capital letter. */
  lemma StaticNames()
    ensures !IsStatic("B") && !IsStatic("C")
  {
    forall i | 0 <= i < |StaticTypes|
      ensures StaticTypes[i] != "B" && StaticTypes[i] != "C"
    {
      assert |StaticTypes[i]| != 1 && |"B"| == 1 && |"C"| == 1;
    }
  }

  /** In a full expansion, an expanded entry keeps the `id` and `rule` of the field it came from. */
  lemma KeepsIdAndRule(global: map<string, Definition>, root: Definition, r: Description, q: seq<string>)
    requires Describes(global, root, r) && q in r.nodes && Locate(global, root, q).Expand?
    ensures !r.nodes[q].Copied? && r.nodes[q].id == Locate(global, root, q).f.id && r.nodes[q].rule == Locate(global, root, q).f.rule
    ensures r.nodes[q].EnumDesc? <==> Locate(global, root, q).d.values.Some?
  {
  }

  /** In a full expansion the top-level entries are the keys of `fields`. */
  lemma TopEntries(global: map<string, Definition>, root: Definition, r: Description, k: string)
    requires Describes(global, root, r)
    ensures [k] in r.nodes <==> k in r.keys
  {
    LocateChild(global, root, [], k);
    assert [] + [k] == [k];
    FieldAtKeys(FieldsOf(root), k);
  }

  /** Every deeper entry of a full expansion lies under a message entry. */
  lemma UnderMessage(global: map<string, Definition>, root: Definition, r: Description, q: seq<string>)
    requires Describes(global, root, r) && q in r.nodes && |q| >= 2
    ensures q[..|q| - 1] in r.nodes && r.nodes[q[..|q| - 1]].MessageDesc?
  {
    ParentSite(global, root, q);
  }

  /** The entries under a message entry of a full expansion are exactly the keys it lists. */
  lemma MessageEntries(global: map<string, Definition>, root: Definition, r: Description, q: seq<string>, k: string)
    requires Describes(global, root, r) && q in r.nodes && r.nodes[q].MessageDesc?
    ensures q + [k] in r.nodes <==> k in r.nodes[q].keys
  {
    var s := Locate(global, root, q);
    assert r.nodes[q] == Final(s);
    var d := s.d;
    assert Scope(global, root, q) == Some(d);
    LocateChild(global, root, q, k);
    FieldAtKeys(FieldsOf(d), k);
    var c := Locate(global, root, q + [k]);
    assert q + [k] in r.nodes <==> Present(c);
    assert !c.Unknown?;
  }

  /** `n` copies of the key `k`: the path `k.fields.k.fields...`. */
  function Repeat(k: string, n: nat): (p: seq<string>)
    ensures |p| == n && forall i :: 0 <= i < n ==> p[i] == k
  {
    if n == 0 then [] else Repeat(k, n - 1) + [k]
  }

  /**
   * A message whose one field has the message's own type: every path
   * `k.k...k` is that field again, so the expansion never ends, and nothing
   * else is present or unknown.
   */
  lemma {:induction false} SelfReference(global: map<string, Definition>, name: string, k: string, f: FieldDef, q: seq<string>)
    requires name in global && global[name] == Definition(Some([FieldEntry(k, f)]), [], None)
    requires f.typeName == name && !IsStatic(name)
    ensures |q| >= 1 && q == Repeat(k, |q|) ==> Locate(global, global[name], q) == Expand(f, global[name])
    ensures q != Repeat(k, |q|) ==> Locate(global, global[name], q) == Missing
    decreases |q|
  {
    var root := global[name];
    if q != [] {
      var parent := q[..|q| - 1];
      assert q == parent + [q[|q| - 1]];
      SelfReference(global, name, k, f, parent);
      LocateChild(global, root, parent, q[|q| - 1]);
      if parent == Repeat(k, |parent|) && q[|q| - 1] == k {
        assert q == Repeat(k, |q|);
        if parent != [] {
          assert Scope(global, root, parent) == Some(root);
        }
      } else if parent == Repeat(k, |parent|) {
        assert q != Repeat(k, |q|);
      } else {
        assert q != Repeat(k, |q|) by {
          assert q[..|q| - 1] == parent;
        }
      }
    }
  }

  /** So the self-referencing message has no full expansion within any number of passes, and `Build` can only run out of fuel. */
  lemma SelfReferenceNeverBuilt(global: map<string, Definition>, name: string, k: string, f: FieldDef, fuel: nat, r: Description)
    requires name in global && global[name] == Definition(Some([FieldEntry(k, f)]), [], None)
    requires f.typeName == name && !IsStatic(name)
    ensures !BuiltWithin(global, global[name], fuel, r)
    ensures forall q :: !Locate(global, global[name], q).Unknown?
  {
    SelfReference(global, name, k, f, Repeat(k, fuel + 2));
    forall q
      ensures !Locate(global, global[name], q).Unknown?
    {
      SelfReference(global, name, k, f, q);
    }
  }
}

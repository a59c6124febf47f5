/** The object-graph serializer (src/lib/serialize.tsx). Classes register a
    model (a name, the primitive fields copied verbatim, and the reference
    fields). An object is written as a flat table of entries keyed by its
    scoped id `<model name>#<id>`; references become scoped ids. Reading
    the table back builds one object per scoped id.

    A class is its `__proto__` chain; objects live in a heap addressed by
    `Vectors.Ref`; the objects read back are addressed by their scoped id. */
module Serialize {
  import opened Wrappers
  import Dict
  import Vectors

  /** `ID_JOINER`. */
  const IdJoiner: char := '#'

  /** A class, identified by `tag`, and the class it extends (`None` for a
      base class, whose `__proto__` carries no model). */
  datatype Class = Class(tag: nat, parent: Option<Class>)

  /** `a instanceof` the class `c`: `c` is on the prototype chain of `a`. */
  predicate InstanceOf(a: Class, c: Class)
    decreases a
  {
    a == c || (a.parent.Some? && InstanceOf(a.parent.value, c))
  }

  /** `ref(target)`, `refList(target)`, `refObjectMap(target)`. */
  datatype RefKind = SingleRef | RefList | RefObjectMap
  datatype RefSpec = RefSpec(kind: RefKind, target: Class)

  datatype Model = Model(ctor: Class, name: string, primitives: seq<string>, refs: Dict.Dict<RefSpec>)

  /** `modelsByConstructor` and `modelsByName`. */
  datatype Registry = Registry(byCtor: map<Class, Model>, byName: map<string, Model>)

  function EmptyRegistry(): (reg: Registry)
    ensures reg.byCtor == map[] && reg.byName == map[]
  {
    Registry(map[], map[])
  }

  /** `extendModel(a, b)`: `b`'s constructor; `b`'s name unless it is empty;
      `a`'s primitives then `b`'s; the refs of both, `b`'s winning. */
  function ExtendModel(a: Model, b: Model): (m: Model)
    ensures m.ctor == b.ctor
    ensures m.name == if b.name != "" then b.name else a.name
    ensures m.primitives == a.primitives + b.primitives
    ensures m.refs.vals.Keys == a.refs.vals.Keys + b.refs.vals.Keys
    ensures forall k :: k in b.refs.vals ==> m.refs.vals[k] == b.refs.vals[k]
    ensures forall k :: k in a.refs.vals && k !in b.refs.vals ==> m.refs.vals[k] == a.refs.vals[k]
  {
    Model(b.ctor, if b.name != "" then b.name else a.name, a.primitives + b.primitives, Dict.Merge(a.refs, b.refs))
  }

  /** `getModelsInInheritanceTree(ctor)`: the registered models along the
      prototype chain, outermost ancestor first. */
  function ModelsInInheritanceTree(reg: Registry, c: Class): (ms: seq<Model>)
    ensures c in reg.byCtor ==> ms != [] && ms[|ms| - 1] == reg.byCtor[c]
    ensures c !in reg.byCtor && c.parent.None? ==> ms == []
    decreases c
  {
    var parentModels := if c.parent.Some? then ModelsInInheritanceTree(reg, c.parent.value) else [];
    if c in reg.byCtor then parentModels + [reg.byCtor[c]] else parentModels
  }

  /** `models.reduce(extendModel)` with no initial value. */
  function Combine(ms: seq<Model>): (m: Model)
    requires ms != []
    ensures m.ctor == ms[|ms| - 1].ctor
    ensures forall k :: k in ms[|ms| - 1].refs.vals ==> k in m.refs.vals && m.refs.vals[k] == ms[|ms| - 1].refs.vals[k]
    decreases |ms|
  {
    if |ms| == 1 then ms[0] else ExtendModel(Combine(ms[..|ms| - 1]), ms[|ms| - 1])
  }

  /** The primitives of a chain of models, one after another. */
  function AllPrimitives(ms: seq<Model>): seq<string>
    decreases |ms|
  {
    if ms == [] then [] else AllPrimitives(ms[..|ms| - 1]) + ms[|ms| - 1].primitives
  }

  /** The combined model lists the primitives of every model in the chain,
      in order, and the primitives it lists come from the chain. */
  lemma {:induction false} CombinePrimitives(ms: seq<Model>)
    requires ms != []
    ensures Combine(ms).primitives == AllPrimitives(ms)
    decreases |ms|
  {
    if |ms| > 1 {
      CombinePrimitives(ms[..|ms| - 1]);
    } else {
      assert AllPrimitives(ms) == AllPrimitives(ms[..0]) + ms[0].primitives;
    }
  }

  /** `serializable(ctor, name, primitives, refs)`: fails on a name holding
      the joiner or a name already taken; otherwise registers, under both
      the class and the name, the class's own model extended from the
      models registered along its prototype chain. */
  function Register(reg: Registry, ctor: Class, name: string, primitives: seq<string>, refs: Dict.Dict<RefSpec>): (r: Result<Registry>)
    ensures r.Fail? <==> IdJoiner in name || name in reg.byName
    ensures r.Ok? ==> ctor in r.value.byCtor && name in r.value.byName
    ensures r.Ok? ==> r.value.byCtor[ctor] == r.value.byName[name]
    ensures r.Ok? ==> r.value.byCtor[ctor].ctor == ctor
    ensures r.Ok? ==> forall k :: k in refs.vals ==> k in r.value.byCtor[ctor].refs.vals && r.value.byCtor[ctor].refs.vals[k] == refs.vals[k]
    ensures r.Ok? ==> forall c :: c in reg.byCtor && c != ctor ==> c in r.value.byCtor && r.value.byCtor[c] == reg.byCtor[c]
    ensures r.Ok? ==> forall n :: n in reg.byName ==> n in r.value.byName && r.value.byName[n] == reg.byName[n]
  {
    if IdJoiner in name then Fail("name cant include the joiner")
    else if name in reg.byName then Fail("serializable class with this name already exists")
    else
      var model := Combine(ModelsInInheritanceTree(reg, ctor) + [Model(ctor, name, primitives, refs)]);
      Ok(Registry(reg.byCtor[ctor := model], reg.byName[name := model]))
  }

  /** Registering a class without serializable ancestors gives it exactly
      the model passed in. */
  lemma RegisterBaseClass(reg: Registry, ctor: Class, name: string, primitives: seq<string>, refs: Dict.Dict<RefSpec>)
    requires ctor !in reg.byCtor && ctor.parent.None?
    requires Register(reg, ctor, name, primitives, refs).Ok?
    ensures Register(reg, ctor, name, primitives, refs).value.byName[name] == Model(ctor, name, primitives, refs)
  {
  }

  /** Every registered class's model is filed under its own name, which
      holds no joiner: what the reading side needs to find the class again
      from a scoped id. */
  ghost predicate Coherent(reg: Registry) {
    forall c :: c in reg.byCtor ==>
      && reg.byCtor[c].ctor == c
      && IdJoiner !in reg.byCtor[c].name
      && reg.byCtor[c].name in reg.byName
      && reg.byName[reg.byCtor[c].name] == reg.byCtor[c]
  }

  /** Registration under a non-empty name keeps the registry coherent. */
  lemma RegisterKeepsCoherence(reg: Registry, ctor: Class, name: string, primitives: seq<string>, refs: Dict.Dict<RefSpec>)
    requires Coherent(reg) && name != ""
    requires Register(reg, ctor, name, primitives, refs).Ok?
    ensures Coherent(Register(reg, ctor, name, primitives, refs).value)
  {
    var model := Combine(ModelsInInheritanceTree(reg, ctor) + [Model(ctor, name, primitives, refs)]);
    assert model.name == name by {
      var ms := ModelsInInheritanceTree(reg, ctor) + [Model(ctor, name, primitives, refs)];
      if |ms| > 1 {
        assert model == ExtendModel(Combine(ms[..|ms| - 1]), ms[|ms| - 1]);
      }
    }
  }

  /** An empty name falls back to the nearest registered ancestor's name,
      so the model is filed under `""` but writes ids under the ancestor's
      name: the registry stops being coherent. */
  lemma EmptyNameTakesAncestorName(reg: Registry, base: Class, sub: Class, primitives: seq<string>, refs: Dict.Dict<RefSpec>)
    requires Coherent(reg) && base in reg.byCtor && reg.byCtor[base].name != ""
    requires sub == Class(base.tag + 1, Some(base)) && sub !in reg.byCtor
    requires Register(reg, sub, "", primitives, refs).Ok?
    ensures Register(reg, sub, "", primitives, refs).value.byCtor[sub].name == reg.byCtor[base].name
    ensures !Coherent(Register(reg, sub, "", primitives, refs).value)
  {
    var ms := ModelsInInheritanceTree(reg, sub) + [Model(sub, "", primitives, refs)];
    assert ModelsInInheritanceTree(reg, sub) == ModelsInInheritanceTree(reg, base);
    var reg' := Register(reg, sub, "", primitives, refs).value;
    assert reg'.byCtor[sub] == ExtendModel(Combine(ms[..|ms| - 1]), ms[|ms| - 1]);
    assert ms[..|ms| - 1] == ModelsInInheritanceTree(reg, base);
    CombineNameOfRegistered(reg, base);
    assert reg'.byName[reg'.byCtor[sub].name] == reg.byCtor[base];
  }

  /** In a coherent registry the combined chain of a registered class is
      named like the class's own model. */
  lemma CombineNameOfRegistered(reg: Registry, c: Class)
    requires c in reg.byCtor && reg.byCtor[c].name != ""
    ensures Combine(ModelsInInheritanceTree(reg, c)).name == reg.byCtor[c].name
  {
    var ms := ModelsInInheritanceTree(reg, c);
    if |ms| > 1 {
      assert Combine(ms) == ExtendModel(Combine(ms[..|ms| - 1]), ms[|ms| - 1]);
    }
  }

  /** `getModelForClass(ctor)`: only the class's own registration counts. */
  function ModelForClass(reg: Registry, c: Class): (r: Result<Model>)
    ensures r.Ok? <==> c in reg.byCtor
    ensures r.Ok? ==> r.value == reg.byCtor[c]
  {
    if c in reg.byCtor then Ok(reg.byCtor[c]) else Fail("model is not serializable")
  }

  /** `<name>#<id>`. */
  function ScopedIdFor(name: string, id: string): string {
    name + [IdJoiner] + id
  }

  /** The first position of `c` in `s`. */
  function FirstIndex(s: string, c: char): (i: nat)
    requires c in s
    ensures i < |s| && s[i] == c && c !in s[..i]
  {
    if s[0] == c then 0 else 1 + FirstIndex(s[1..], c)
  }

  /** `s.split(sep)`: the pieces between separators, at least one. */
  function Split(s: string, sep: char): (parts: seq<string>)
    ensures parts != []
    ensures sep !in s ==> parts == [s]
    ensures forall i :: 0 <= i < |parts| ==> sep !in parts[i]
    decreases |s|
  {
    if sep !in s then [s]
    else
      var i := FirstIndex(s, sep);
      [s[..i]] + Split(s[i + 1..], sep)
  }

  /** Splitting `a#b` with no joiner in `a` or `b` gives `[a, b]`. */
  lemma SplitScopedId(name: string, id: string)
    requires IdJoiner !in name && IdJoiner !in id
    ensures Split(ScopedIdFor(name, id), IdJoiner) == [name, id]
  {
    var s := ScopedIdFor(name, id);
    assert s[..|name|] == name;
    FirstIndexIs(s, IdJoiner, |name|);
    assert s[|name| + 1..] == id;
  }

  /** The first position of `c` is the one with no `c` before it. */
  lemma FirstIndexIs(s: string, c: char, j: nat)
    requires j < |s| && s[j] == c && c !in s[..j]
    ensures FirstIndex(s, c) == j
    decreases j
  {
    if j > 0 {
      assert s[0] == s[..j][0];
      assert s[1..][..j - 1] == s[..j][1..];
      FirstIndexIs(s[1..], c, j - 1);
    }
  }

  /** A string that splits into exactly two pieces is those pieces joined. */
  lemma SplitInTwo(s: string)
    requires |Split(s, IdJoiner)| == 2
    ensures s == ScopedIdFor(Split(s, IdJoiner)[0], Split(s, IdJoiner)[1])
  {
    var i := FirstIndex(s, IdJoiner);
    assert s == s[..i] + [IdJoiner] + s[i + 1..];
  }

  /** The objects of the live graph (`R` is `Vectors.Ref`) and of the
      graph read back (`R` is a scoped id). */
  datatype Prim = Num(n: real) | Str(s: string) | Bool(b: bool)

  /** A field value: a primitive, `null`, `undefined`, or the value of a
      reference field: one object, an array of objects, or an object whose
      values are objects. */
  datatype Value<R> =
    | Prim(p: Prim)
    | Null
    | Undefined
    | Ref(target: R)
    | Refs(items: seq<R>)
    | RefMap(entries: Dict.Dict<R>)

  datatype Obj<R> = Obj(cls: Class, id: string, fields: map<string, Value<R>>)

  /** `object[key]`: a missing property reads as `undefined`. */
  function Field<R>(o: Obj<R>, key: string): (v: Value<R>)
    ensures key !in o.fields ==> v == Undefined
  {
    if key in o.fields then o.fields[key] else Undefined
  }

  /** `getScopedIdForSerializable(object)`: fails on an id holding the
      joiner (checked first) or an unregistered class. */
  function ScopedId<R>(reg: Registry, o: Obj<R>): (r: Result<string>)
    ensures r.Ok? <==> IdJoiner !in o.id && o.cls in reg.byCtor
    ensures r.Ok? ==> r.value == ScopedIdFor(reg.byCtor[o.cls].name, o.id)
  {
    if IdJoiner in o.id then Fail("id must not include the joiner")
    else
      var model :- ModelForClass(reg, o.cls);
      Ok(ScopedIdFor(model.name, o.id))
  }

  /** `parseId(scopedId)`: exactly one joiner, and a registered name before it. */
  function ParseId(reg: Registry, scopedId: string): (r: Result<(Model, string)>)
    ensures r.Ok? <==> |Split(scopedId, IdJoiner)| == 2 && Split(scopedId, IdJoiner)[0] in reg.byName
    ensures r.Ok? ==> r.value.0 == reg.byName[Split(scopedId, IdJoiner)[0]] && r.value.1 == Split(scopedId, IdJoiner)[1]
  {
    var parsed := Split(scopedId, IdJoiner);
    if |parsed| != 2 then Fail("invalid id")
    else if parsed[0] !in reg.byName then Fail("unknown serialize model")
    else Ok((reg.byName[parsed[0]], parsed[1]))
  }

  /** Parsing a scoped id written for a registered class of a coherent
      registry finds that class's model and the object's id. */
  lemma {:induction false} ParseScopedId<R>(reg: Registry, o: Obj<R>)
    requires Coherent(reg)
    requires ScopedId(reg, o).Ok?
    ensures ParseId(reg, ScopedId(reg, o).value) == Ok((reg.byCtor[o.cls], o.id))
  {
    SplitScopedId(reg.byCtor[o.cls].name, o.id);
  }

  /** Conversely, a scoped id that parses is the model's name and the id
      joined. */
  lemma {:induction false} ParsedIdJoinsBack(reg: Registry, scopedId: string)
    requires ParseId(reg, scopedId).Ok?
    ensures scopedId == ScopedIdFor(Split(scopedId, IdJoiner)[0], ParseId(reg, scopedId).value.1)
    ensures IdJoiner !in ParseId(reg, scopedId).value.1
  {
    SplitInTwo(scopedId);
  }

  /** The live heap. */
  type Heap = map<Vectors.Ref, Obj<Vectors.Ref>>

  /** `objectsById`: one entry per scoped id, holding the written fields. */
  type Entries = map<string, map<string, Value<string>>>

  datatype Serialization = Serialization(rootId: string, objectsById: Entries)

  /** The scoped id a live object is written under (empty when it has none). */
  function IdOf(reg: Registry, heap: Heap, r: Vectors.Ref): string {
    if r in heap && ScopedId(reg, heap[r]).Ok? then ScopedId(reg, heap[r]).value else ""
  }

  /** A field value with every object replaced by its scoped id. */
  function Rename(reg: Registry, heap: Heap, v: Value<Vectors.Ref>): Value<string> {
    match v
    case Prim(p) => Prim(p)
    case Null => Null
    case Undefined => Undefined
    case Ref(r) => Ref(IdOf(reg, heap, r))
    case Refs(items) => Refs(seq(|items|, i requires 0 <= i < |items| => IdOf(reg, heap, items[i])))
    case RefMap(d) => RefMap(Dict.MapValues(d, (r: Vectors.Ref) => IdOf(reg, heap, r)))
  }

  /** A value a primitive field can hold and the table can store. */
  predicate Plain<R>(v: Value<R>) {
    v.Prim? || v.Null? || v.Undefined?
  }

  /** The fields a model names: its primitives and its reference fields. */
  function ModelKeys(m: Model): set<string> {
    (set k | k in m.primitives) + m.refs.vals.Keys
  }

  /** A live object renamed: the fields its model names, objects replaced
      by scoped ids. This is what writing and then reading it back should
      give. */
  function RenameObj(reg: Registry, heap: Heap, o: Obj<Vectors.Ref>, m: Model): (r: Obj<string>)
    ensures r.cls == o.cls && r.id == o.id && r.fields.Keys == ModelKeys(m)
  {
    Obj(o.cls, o.id, map k | k in ModelKeys(m) :: Rename(reg, heap, Field(o, k)))
  }

  /** `entry` is how `serializeItem` writes `o` under model `m`: every named
      field, renamed; the primitive ones (not overridden by a reference
      field) hold plain values. */
  ghost predicate Encodes(reg: Registry, heap: Heap, o: Obj<Vectors.Ref>, m: Model, entry: map<string, Value<string>>) {
    && entry.Keys == ModelKeys(m)
    && (forall k :: k in entry ==> entry[k] == Rename(reg, heap, Field(o, k)))
    && (forall k :: k in m.primitives && k !in m.refs.vals ==> Plain(Field(o, k)))
  }

  /** The scoped ids a written value mentions. */
  function IdsIn(v: Value<string>): set<string> {
    match v
    case Ref(t) => {t}
    case Refs(items) => set i | 0 <= i < |items| :: items[i]
    case RefMap(d) => d.vals.Values
    case _ => {}
  }

  /** Every id an entry mentions has an entry of its own. */
  ghost predicate Closed(objs: Entries) {
    forall s, k :: s in objs && k in objs[s] ==> IdsIn(objs[s][k]) <= objs.Keys
  }

  /** `b` keeps every entry of `a`. */
  ghost predicate Extends<V>(a: map<string, V>, b: map<string, V>) {
    forall s :: s in a ==> s in b && b[s] == a[s]
  }

  /** Every live object whose scoped id has an entry is the one the entry
      encodes (ids are unique, so the entry can only be its). */
  ghost predicate AllEncode(reg: Registry, heap: Heap, objs: Entries) {
    forall r :: r in heap && ScopedId(reg, heap[r]).Ok? && IdOf(reg, heap, r) in objs ==>
      Encodes(reg, heap, heap[r], reg.byCtor[heap[r].cls], objs[IdOf(reg, heap, r)])
  }

  /** No two live objects share a scoped id. */
  ghost predicate UniqueIds(reg: Registry, heap: Heap) {
    forall r1, r2 ::
      (r1 in heap && r2 in heap && ScopedId(reg, heap[r1]).Ok? && ScopedId(reg, heap[r2]).Ok? &&
       IdOf(reg, heap, r1) == IdOf(reg, heap, r2)) ==> r1 == r2
  }

  /** The facts every step of writing keeps: entries are never dropped or
      changed, ids mentioned have entries, and (with unique ids) each entry
      encodes its object. */
  ghost predicate Grows(reg: Registry, heap: Heap, before: Entries, after: Entries) {
    && Extends(before, after)
    && (Closed(before) ==> Closed(after))
    && (UniqueIds(reg, heap) && AllEncode(reg, heap, before) ==> AllEncode(reg, heap, after))
  }

  /** `serializeSingleRef(object, objectsById)`. The entry is written after
      the object's fields, so an object reachable from itself recurses
      until the stack runs out; `fuel` is the depth left. */
  function SerializeSingleRef(reg: Registry, heap: Heap, r: Vectors.Ref, out: Entries, fuel: nat): (res: Result<(string, Entries)>)
    ensures res.Ok? ==> r in heap && ScopedId(reg, heap[r]).Ok?
    ensures res.Ok? ==> res.value.0 == IdOf(reg, heap, r) && res.value.0 in res.value.1
    ensures res.Ok? ==> Grows(reg, heap, out, res.value.1)
    decreases fuel, 0, 0
  {
    if r !in heap then Fail("object is not in the heap")
    else
      var id :- ScopedId(reg, heap[r]);
      if id in out then Ok((id, out))
      else if fuel == 0 then Fail("Maximum call stack size exceeded")
      else
        var written :- SerializeItem(reg, heap, heap[r], out, fuel - 1);
        var out' := written.1[id := written.0];
        SingleRefGrows(reg, heap, r, out, written.0, written.1);
        Ok((id, out'))
  }

  /** Writing the entry of `r` after its fields keeps the invariant. */
  lemma SingleRefGrows(reg: Registry, heap: Heap, r: Vectors.Ref, out: Entries, entry: map<string, Value<string>>, mid: Entries)
    requires r in heap && ScopedId(reg, heap[r]).Ok? && IdOf(reg, heap, r) !in out
    requires Encodes(reg, heap, heap[r], reg.byCtor[heap[r].cls], entry)
    requires forall k :: k in entry ==> IdsIn(entry[k]) <= mid.Keys
    requires Grows(reg, heap, out, mid)
    ensures Grows(reg, heap, out, mid[IdOf(reg, heap, r) := entry])
  {
    var id := IdOf(reg, heap, r);
    var out' := mid[id := entry];
    if UniqueIds(reg, heap) && AllEncode(reg, heap, out) {
      forall q | q in heap && ScopedId(reg, heap[q]).Ok? && IdOf(reg, heap, q) in out'
        ensures Encodes(reg, heap, heap[q], reg.byCtor[heap[q].cls], out'[IdOf(reg, heap, q)])
      {
        if IdOf(reg, heap, q) == id {
          assert q == r;
        }
      }
    }
  }

  /** `serializeItem(object, objectsById)`: the primitives, then every
      reference field of the object's model. */
  function SerializeItem(reg: Registry, heap: Heap, o: Obj<Vectors.Ref>, out: Entries, fuel: nat): (res: Result<(map<string, Value<string>>, Entries)>)
    ensures res.Ok? ==> o.cls in reg.byCtor && Encodes(reg, heap, o, reg.byCtor[o.cls], res.value.0)
    ensures res.Ok? ==> forall k :: k in res.value.0 ==> IdsIn(res.value.0[k]) <= res.value.1.Keys
    ensures res.Ok? ==> Grows(reg, heap, out, res.value.1)
    decreases fuel, 5, 0
  {
    var model :- ModelForClass(reg, o.cls);
    var prims :- CopyPrimitives(reg, heap, o, model.primitives);
    var res := SerializeRefs(reg, heap, o, model.refs, model.refs.keys, prims, out, fuel);
    if res.Ok? then
      assert Encodes(reg, heap, o, model, res.value.0) by {
        assert res.value.0.Keys == ModelKeys(model);
      }
      res
    else res
  }

  /** `primitives.forEach(key => result[key] = object[key])`. */
  function CopyPrimitives(reg: Registry, heap: Heap, o: Obj<Vectors.Ref>, keys: seq<string>): (res: Result<map<string, Value<string>>>)
    ensures res.Ok? <==> forall k :: k in keys ==> Plain(Field(o, k))
    ensures res.Ok? ==> res.value.Keys == set k | k in keys
    ensures res.Ok? ==> forall k :: k in res.value ==> res.value[k] == Rename(reg, heap, Field(o, k)) && IdsIn(res.value[k]) == {}
    decreases |keys|
  {
    if keys == [] then Ok(map[])
    else if !Plain(Field(o, keys[0])) then Fail("primitive field holds an object")
    else
      var rest :- CopyPrimitives(reg, heap, o, keys[1..]);
      Ok(rest[keys[0] := Rename(reg, heap, Field(o, keys[0]))])
  }

  /** `Object.keys(refs).forEach(key => result[key] = serializeRef(...))`. */
  function SerializeRefs(reg: Registry, heap: Heap, o: Obj<Vectors.Ref>, refs: Dict.Dict<RefSpec>, keys: seq<string>,
                         acc: map<string, Value<string>>, out: Entries, fuel: nat): (res: Result<(map<string, Value<string>>, Entries)>)
    requires forall k :: k in keys ==> k in refs.vals
    requires forall k :: k in acc ==> IdsIn(acc[k]) <= out.Keys
    ensures res.Ok? ==> res.value.0.Keys == acc.Keys + set k | k in keys
    ensures res.Ok? ==> forall k :: k in res.value.0 ==>
      res.value.0[k] == if k in keys then Rename(reg, heap, Field(o, k)) else acc[k]
    ensures res.Ok? ==> forall k :: k in res.value.0 ==> IdsIn(res.value.0[k]) <= res.value.1.Keys
    ensures res.Ok? ==> Grows(reg, heap, out, res.value.1)
    decreases fuel, 4, |keys|
  {
    if keys == [] then Ok((acc, out))
    else
      var written :- SerializeRef(reg, heap, refs.vals[keys[0]], Field(o, keys[0]), out, fuel);
      var acc' := acc[keys[0] := written.0];
      assert forall k :: k in acc' ==> IdsIn(acc'[k]) <= written.1.Keys;
      var res := SerializeRefs(reg, heap, o, refs, keys[1..], acc', written.1, fuel);
      if res.Ok? then
        RefsStep(reg, heap, o, keys, acc, acc', written.0, res.value.0);
        res
      else res
  }

  lemma RefsStep(reg: Registry, heap: Heap, o: Obj<Vectors.Ref>, keys: seq<string>, acc: map<string, Value<string>>,
                 acc': map<string, Value<string>>, first: Value<string>, result: map<string, Value<string>>)
    requires keys != [] && first == Rename(reg, heap, Field(o, keys[0])) && acc' == acc[keys[0] := first]
    requires result.Keys == acc'.Keys + set k | k in keys[1..]
    requires forall k :: k in result ==> result[k] == if k in keys[1..] then Rename(reg, heap, Field(o, k)) else acc'[k]
    ensures result.Keys == acc.Keys + set k | k in keys
    ensures forall k :: k in result ==> result[k] == if k in keys then Rename(reg, heap, Field(o, k)) else acc[k]
  {
    assert forall k :: k in keys <==> k == keys[0] || k in keys[1..];
  }

  /** `serializeRef(ref, value, objectsById)`: `null` stays `null`; a value
      of the wrong shape for the reference kind fails (reading `.id` or
      `.map` of it). */
  function SerializeRef(reg: Registry, heap: Heap, spec: RefSpec, v: Value<Vectors.Ref>, out: Entries, fuel: nat): (res: Result<(Value<string>, Entries)>)
    ensures res.Ok? ==> res.value.0 == Rename(reg, heap, v)
    ensures res.Ok? ==> IdsIn(res.value.0) <= res.value.1.Keys
    ensures res.Ok? ==> Grows(reg, heap, out, res.value.1)
    decreases fuel, 3, 0
  {
    if v.Null? then Ok((Null, out))
    else match spec.kind
      case SingleRef =>
        if !v.Ref? then Fail("reference field does not hold an object")
        else
          SerializeOneRef(reg, heap, v.target, out, fuel)
      case RefList =>
        if !v.Refs? then Fail("list field does not hold an array")
        else
          SerializeRefList(reg, heap, v.items, out, fuel)
      case RefObjectMap =>
        if !v.RefMap? then Fail("object-map field does not hold an object")
        else
          SerializeObjectMap(reg, heap, v.entries, out, fuel)
  }

  /** A `ref` field: the scoped id of the object it holds. */
  function SerializeOneRef(reg: Registry, heap: Heap, r: Vectors.Ref, out: Entries, fuel: nat): (res: Result<(Value<string>, Entries)>)
    ensures res.Ok? ==> res.value.0 == Rename(reg, heap, Ref(r))
    ensures res.Ok? ==> IdsIn(res.value.0) <= res.value.1.Keys
    ensures res.Ok? ==> Grows(reg, heap, out, res.value.1)
    decreases fuel, 2, 0
  {
    var written :- SerializeSingleRef(reg, heap, r, out, fuel);
    Ok((Ref(written.0), written.1))
  }

  /** `serializeRefList(objects, objectsById)`: the list of scoped ids. */
  function SerializeRefList(reg: Registry, heap: Heap, items: seq<Vectors.Ref>, out: Entries, fuel: nat): (res: Result<(Value<string>, Entries)>)
    ensures res.Ok? ==> res.value.0 == Rename(reg, heap, Refs(items))
    ensures res.Ok? ==> IdsIn(res.value.0) <= res.value.1.Keys
    ensures res.Ok? ==> Grows(reg, heap, out, res.value.1)
    decreases fuel, 2, 0
  {
    var written :- SerializeList(reg, heap, items, out, fuel);
    assert Refs(written.0) == Rename(reg, heap, Refs(items));
    Ok((Refs(written.0), written.1))
  }

  /** `serializeObjectMap(objects, objectsById)`: each value, in key order,
      replaced by its scoped id. */
  function SerializeObjectMap(reg: Registry, heap: Heap, d: Dict.Dict<Vectors.Ref>, out: Entries, fuel: nat): (res: Result<(Value<string>, Entries)>)
    ensures res.Ok? ==> res.value.0 == Rename(reg, heap, RefMap(d))
    ensures res.Ok? ==> IdsIn(res.value.0) <= res.value.1.Keys
    ensures res.Ok? ==> Grows(reg, heap, out, res.value.1)
    decreases fuel, 2, 0
  {
    var written :- SerializeList(reg, heap, Dict.Values(d), out, fuel);
    var renamed := Dict.MapValues(d, (r: Vectors.Ref) => IdOf(reg, heap, r));
    RenamedIdsWritten(reg, heap, d, renamed, written.0, written.1);
    Ok((RefMap(renamed), written.1))
  }

  lemma RenamedIdsWritten(reg: Registry, heap: Heap, d: Dict.Dict<Vectors.Ref>, renamed: Dict.Dict<string>, ids: seq<string>, out: Entries)
    requires renamed == Dict.MapValues(d, (r: Vectors.Ref) => IdOf(reg, heap, r))
    requires |ids| == |Dict.Values(d)|
    requires forall i :: 0 <= i < |ids| ==> ids[i] == IdOf(reg, heap, Dict.Values(d)[i]) && ids[i] in out
    ensures renamed.vals.Values <= out.Keys
  {
    forall t | t in renamed.vals.Values ensures t in out {
      var k :| k in renamed.vals && renamed.vals[k] == t;
      var i :| 0 <= i < |d.keys| && d.keys[i] == k;
      assert Dict.Values(d)[i] == d.vals[k];
      assert ids[i] == t;
    }
  }

  /** `objects.map(object => serializeSingleRef(object, objectsById))`. */
  function SerializeList(reg: Registry, heap: Heap, items: seq<Vectors.Ref>, out: Entries, fuel: nat): (res: Result<(seq<string>, Entries)>)
    ensures res.Ok? ==> |res.value.0| == |items|
    ensures res.Ok? ==> forall i :: 0 <= i < |items| ==> res.value.0[i] == IdOf(reg, heap, items[i]) && res.value.0[i] in res.value.1
    ensures res.Ok? ==> Grows(reg, heap, out, res.value.1)
    decreases fuel, 1, |items|
  {
    if items == [] then Ok(([], out))
    else
      var first :- SerializeSingleRef(reg, heap, items[0], out, fuel);
      var rest :- SerializeList(reg, heap, items[1..], first.1, fuel);
      Ok(([first.0] + rest.0, rest.1))
  }

  /** `serialize(object)`. */
  function SerializeRoot(reg: Registry, heap: Heap, root: Vectors.Ref, fuel: nat): (res: Result<Serialization>)
    ensures res.Ok? ==> root in heap && ScopedId(reg, heap[root]).Ok?
    ensures res.Ok? ==> res.value.rootId == IdOf(reg, heap, root) && res.value.rootId in res.value.objectsById
    ensures res.Ok? ==> Closed(res.value.objectsById)
    ensures res.Ok? && UniqueIds(reg, heap) ==> AllEncode(reg, heap, res.value.objectsById)
  {
    var written :- SerializeSingleRef(reg, heap, root, map[], fuel);
    Ok(Serialization(written.0, written.1))
  }

  /** Objects read back so far, by scoped id (`resultCache`). */
  type Cache = map<string, Obj<string>>

  /** `source[key]` of a written entry: a missing property reads as `undefined`. */
  function EntryField(entry: map<string, Value<string>>, key: string): (v: Value<string>)
    ensures key !in entry ==> v == Undefined
  {
    if key in entry then entry[key] else Undefined
  }

  /** A written reference field `deserializeRef` can read: `null`, or the
      shape its kind expects. */
  predicate Fits(kind: RefKind, v: Value<string>) {
    v.Null? || (kind.SingleRef? && v.Ref?) || (kind.RefList? && v.Refs?) || (kind.RefObjectMap? && v.RefMap?)
  }

  /** What reading an entry back builds: an instance of the model's class
      with the parsed id and every field the model names, holding the
      written value (references by the same scoped ids). */
  function DecodeEntry(m: Model, id: string, entry: map<string, Value<string>>): (o: Obj<string>)
    ensures o.cls == m.ctor && o.id == id && o.fields.Keys == ModelKeys(m)
  {
    Obj(m.ctor, id, map k | k in ModelKeys(m) :: EntryField(entry, k))
  }

  /** Every cached object is the decoding of its entry. */
  ghost predicate Decoded(reg: Registry, objs: Entries, cache: Cache) {
    forall s :: s in cache ==>
      && s in objs
      && ParseId(reg, s).Ok?
      && cache[s] == DecodeEntry(ParseId(reg, s).value.0, ParseId(reg, s).value.1, objs[s])
  }

  /** Every reference field of a cached object names cached objects. */
  ghost predicate Resolved(reg: Registry, cache: Cache) {
    forall s, k :: s in cache && ParseId(reg, s).Ok? && k in ParseId(reg, s).value.0.refs.vals && k in cache[s].fields ==>
      IdsIn(cache[s].fields[k]) <= cache.Keys
  }

  /** What every step of reading keeps. */
  ghost predicate Loaded(reg: Registry, objs: Entries, before: Cache, after: Cache) {
    && Extends(before, after)
    && (Decoded(reg, objs, before) ==> Decoded(reg, objs, after))
    && (Resolved(reg, before) ==> Resolved(reg, after))
  }

  /** `deserializeItem(objectsById, scopedId, resultCache)`. An entry is
      cached only once its references are read, so an entry reachable from
      itself recurses until the stack runs out; `stack` holds the entries
      being read, and meeting one again is that failure. */
  function DeserializeItem(reg: Registry, objs: Entries, sid: string, cache: Cache, stack: set<string>): (res: Result<Cache>)
    ensures res.Ok? ==> sid in res.value && Loaded(reg, objs, cache, res.value)
    ensures res.Ok? && sid !in cache ==>
      (sid in objs && ParseId(reg, sid).Ok? &&
       res.value[sid] == DecodeEntry(ParseId(reg, sid).value.0, ParseId(reg, sid).value.1, objs[sid]))
    decreases |objs.Keys - stack|, 0, 0
  {
    if sid in cache then Ok(cache)
    else if sid !in objs then Fail("required value does not exist")
    else
      var parsed :- ParseId(reg, sid);
      if sid in stack then Fail("Maximum call stack size exceeded")
      else
        FewerLeft(objs.Keys, stack, sid);
        ReadEntry(reg, objs, sid, parsed, cache, stack + {sid})
  }

  /** Reading `sid` itself takes one more entry off those left to read. */
  lemma FewerLeft(keys: set<string>, stack: set<string>, sid: string)
    requires sid in keys && sid !in stack
    ensures |keys - (stack + {sid})| < |keys - stack|
  {
    assert keys - stack == (keys - (stack + {sid})) + {sid};
  }

  /** The body of `deserializeItem` for an entry not read yet: a new
      instance with the parsed id, the primitives, then the reference
      fields; cached last. */
  function ReadEntry(reg: Registry, objs: Entries, sid: string, parsed: (Model, string), cache: Cache, stack: set<string>): (res: Result<Cache>)
    requires sid in objs && sid !in cache && ParseId(reg, sid) == Ok(parsed)
    ensures res.Ok? ==> sid in res.value && Loaded(reg, objs, cache, res.value)
    ensures res.Ok? ==> res.value[sid] == DecodeEntry(parsed.0, parsed.1, objs[sid])
    decreases |objs.Keys - stack|, 5, 0
  {
    var model := parsed.0;
    var source := objs[sid];
    var prims := map k | k in model.primitives :: EntryField(source, k);
    var read :- DeserializeRefs(reg, objs, source, model.refs, model.refs.keys, prims, cache, stack);
    var o := Obj(model.ctor, parsed.1, read.0);
    DecodedFields(model, parsed.1, source, prims, read.0);
    ItemLoaded(reg, objs, sid, o, cache, read.1);
    Ok(read.1[sid := o])
  }

  /** The primitives copied, then the reference fields over them, give the
      decoded entry's fields. */
  lemma DecodedFields(m: Model, id: string, source: map<string, Value<string>>, prims: map<string, Value<string>>, fields: map<string, Value<string>>)
    requires prims == map k | k in m.primitives :: EntryField(source, k)
    requires fields.Keys == prims.Keys + set k | k in m.refs.keys
    requires forall k :: k in fields ==> fields[k] == if k in m.refs.keys then EntryField(source, k) else prims[k]
    ensures Obj(m.ctor, id, fields) == DecodeEntry(m, id, source)
  {
    assert forall k :: k in m.refs.keys <==> k in m.refs.vals;
    assert fields == DecodeEntry(m, id, source).fields;
  }

  /** Caching the decoded entry of `sid` after its references keeps the
      invariant. */
  lemma ItemLoaded(reg: Registry, objs: Entries, sid: string, o: Obj<string>, cache: Cache, mid: Cache)
    requires sid !in cache && sid in objs && ParseId(reg, sid).Ok?
    requires o == DecodeEntry(ParseId(reg, sid).value.0, ParseId(reg, sid).value.1, objs[sid])
    requires forall k :: k in ParseId(reg, sid).value.0.refs.vals ==> IdsIn(EntryField(objs[sid], k)) <= mid.Keys
    requires Loaded(reg, objs, cache, mid)
    ensures Loaded(reg, objs, cache, mid[sid := o])
  {
  }

  /** `Object.keys(refs).forEach(key => result[key] = deserializeRef(...))`. */
  function DeserializeRefs(reg: Registry, objs: Entries, source: map<string, Value<string>>, refs: Dict.Dict<RefSpec>,
                           keys: seq<string>, acc: map<string, Value<string>>, cache: Cache, stack: set<string>): (res: Result<(map<string, Value<string>>, Cache)>)
    requires forall k :: k in keys ==> k in refs.vals
    ensures res.Ok? ==> res.value.0.Keys == acc.Keys + set k | k in keys
    ensures res.Ok? ==> forall k :: k in res.value.0 ==>
      res.value.0[k] == if k in keys then EntryField(source, k) else acc[k]
    ensures res.Ok? ==> forall k :: k in keys ==> Fits(refs.vals[k].kind, EntryField(source, k)) && IdsIn(EntryField(source, k)) <= res.value.1.Keys
    ensures res.Ok? ==> Loaded(reg, objs, cache, res.value.1)
    decreases |objs.Keys - stack|, 4, |keys|
  {
    if keys == [] then Ok((acc, cache))
    else
      var cache' :- DeserializeRef(reg, objs, refs.vals[keys[0]], EntryField(source, keys[0]), cache, stack);
      var acc' := acc[keys[0] := EntryField(source, keys[0])];
      var res := DeserializeRefs(reg, objs, source, refs, keys[1..], acc', cache', stack);
      if res.Ok? then
        assert forall k :: k in keys <==> k == keys[0] || k in keys[1..];
        res
      else res
  }

  /** `deserializeRef(ref, value, ...)`: reads every object the value names.
      The field keeps the value itself: the same scoped ids, now naming
      cached objects. */
  function DeserializeRef(reg: Registry, objs: Entries, spec: RefSpec, v: Value<string>, cache: Cache, stack: set<string>): (res: Result<Cache>)
    ensures res.Ok? ==> Fits(spec.kind, v) && IdsIn(v) <= res.value.Keys
    ensures res.Ok? ==> Loaded(reg, objs, cache, res.value)
    decreases |objs.Keys - stack|, 3, 0
  {
    if v.Null? then Ok(cache)
    else match spec.kind
      case SingleRef =>
        if !v.Ref? then Fail("reference field does not hold an id")
        else DeserializeItem(reg, objs, v.target, cache, stack)
      case RefList =>
        if !v.Refs? then Fail("list field does not hold an array")
        else DeserializeList(reg, objs, v.items, cache, stack)
      case RefObjectMap =>
        if !v.RefMap? then Fail("object-map field does not hold an object")
        else
          var cache' :- DeserializeList(reg, objs, Dict.Values(v.entries), cache, stack);
          ValuesListed(v.entries);
          Ok(cache')
  }

  /** Every value of a dictionary is among `Values`. */
  lemma ValuesListed<V>(d: Dict.Dict<V>)
    ensures forall x :: x in d.vals.Values ==> exists i :: 0 <= i < |Dict.Values(d)| && Dict.Values(d)[i] == x
  {
    forall x | x in d.vals.Values ensures exists i :: 0 <= i < |Dict.Values(d)| && Dict.Values(d)[i] == x {
      var k :| k in d.vals && d.vals[k] == x;
      var i :| 0 <= i < |d.keys| && d.keys[i] == k;
      assert Dict.Values(d)[i] == x;
    }
  }

  /** `ids.map(id => deserializeItem(objectsById, id, resultCache))`. */
  function DeserializeList(reg: Registry, objs: Entries, items: seq<string>, cache: Cache, stack: set<string>): (res: Result<Cache>)
    ensures res.Ok? ==> (set i | 0 <= i < |items| :: items[i]) <= res.value.Keys
    ensures res.Ok? ==> Loaded(reg, objs, cache, res.value)
    decreases |objs.Keys - stack|, 1, |items|
  {
    if items == [] then Ok(cache)
    else
      var cache' :- DeserializeItem(reg, objs, items[0], cache, stack);
      var res := DeserializeList(reg, objs, items[1..], cache', stack);
      if res.Ok? then
        assert forall i :: 1 <= i < |items| ==> items[i] == items[1..][i - 1];
        res
      else res
  }

  /** `deserialize(serialization)`: the root entry read back, with every
      object read along the way. */
  function Deserialize(reg: Registry, ser: Serialization): (res: Result<(Obj<string>, Cache)>)
    ensures res.Ok? ==> ser.rootId in ser.objectsById && ParseId(reg, ser.rootId).Ok?
    ensures res.Ok? ==> res.value.0 == DecodeEntry(ParseId(reg, ser.rootId).value.0, ParseId(reg, ser.rootId).value.1, ser.objectsById[ser.rootId])
    ensures res.Ok? ==> Decoded(reg, ser.objectsById, res.value.1) && Resolved(reg, res.value.1)
    ensures res.Ok? ==> ser.rootId in res.value.1 && res.value.1[ser.rootId] == res.value.0
  {
    var cache :- DeserializeItem(reg, ser.objectsById, ser.rootId, map[], {});
    Ok((cache[ser.rootId], cache))
  }

  /** Reading back an entry written for `o` gives `o` renamed: the id
      parses back to `o`'s model and id, and every named field holds the
      written value. */
  lemma DecodeEncodedEntry(reg: Registry, heap: Heap, o: Obj<Vectors.Ref>, entry: map<string, Value<string>>)
    requires Coherent(reg) && ScopedId(reg, o).Ok?
    requires Encodes(reg, heap, o, reg.byCtor[o.cls], entry)
    ensures ParseId(reg, ScopedId(reg, o).value) == Ok((reg.byCtor[o.cls], o.id))
    ensures DecodeEntry(reg.byCtor[o.cls], o.id, entry) == RenameObj(reg, heap, o, reg.byCtor[o.cls])
  {
    ParseScopedId(reg, o);
    var m := reg.byCtor[o.cls];
    assert DecodeEntry(m, o.id, entry).fields == RenameObj(reg, heap, o, m).fields;
  }

  /** Round trip: in a coherent registry, with unique ids, when writing an
      object graph and reading it back both succeed, the root comes back as
      the original root renamed, and so does every object read back. */
  lemma {:induction false} RoundTrip(reg: Registry, heap: Heap, root: Vectors.Ref, fuel: nat, back: Obj<string>, cache: Cache)
    requires Coherent(reg) && UniqueIds(reg, heap)
    requires SerializeRoot(reg, heap, root, fuel).Ok?
    requires Deserialize(reg, SerializeRoot(reg, heap, root, fuel).value) == Ok((back, cache))
    ensures root in heap && back == RenameObj(reg, heap, heap[root], reg.byCtor[heap[root].cls])
    ensures forall r :: r in heap && ScopedId(reg, heap[r]).Ok? && IdOf(reg, heap, r) in cache ==>
      cache[IdOf(reg, heap, r)] == RenameObj(reg, heap, heap[r], reg.byCtor[heap[r].cls])
  {
    var ser := SerializeRoot(reg, heap, root, fuel).value;
    var objs := ser.objectsById;
    forall r | r in heap && ScopedId(reg, heap[r]).Ok? && IdOf(reg, heap, r) in cache
      ensures cache[IdOf(reg, heap, r)] == RenameObj(reg, heap, heap[r], reg.byCtor[heap[r].cls])
    {
      var sid := IdOf(reg, heap, r);
      assert sid in objs;
      DecodeEncodedEntry(reg, heap, heap[r], objs[sid]);
    }
  }

  /** An object whose model has one `ref` field and nothing else, holding
      the object itself. */
  ghost predicate SelfReferencing(reg: Registry, heap: Heap, r: Vectors.Ref, key: string) {
    && r in heap
    && heap[r].cls in reg.byCtor
    && reg.byCtor[heap[r].cls].primitives == []
    && reg.byCtor[heap[r].cls].refs.keys == [key]
    && reg.byCtor[heap[r].cls].refs.vals == map[key := RefSpec(SingleRef, heap[r].cls)]
    && Field(heap[r], key) == Ref(r)
  }

  /** Writing an object that refers to itself never finishes: its entry is
      written only after its fields, so whatever the stack depth, it runs
      out. */
  lemma {:induction false} SelfReferenceOverflows(reg: Registry, heap: Heap, r: Vectors.Ref, key: string, out: Entries, fuel: nat)
    requires SelfReferencing(reg, heap, r, key)
    requires IdOf(reg, heap, r) !in out
    ensures SerializeSingleRef(reg, heap, r, out, fuel).Fail?
    decreases fuel
  {
    if fuel > 0 && ScopedId(reg, heap[r]).Ok? {
      SelfReferenceOverflows(reg, heap, r, key, out, fuel - 1);
      assert CopyPrimitives(reg, heap, heap[r], []) == Ok(map[]);
      assert SerializeOneRef(reg, heap, r, out, fuel - 1).Fail?;
      assert SerializeRef(reg, heap, RefSpec(SingleRef, heap[r].cls), Ref(r), out, fuel - 1).Fail?;
      assert SerializeRefs(reg, heap, heap[r], reg.byCtor[heap[r].cls].refs, [key], map[], out, fuel - 1).Fail?;
    }
  }

  /** Reading back an entry whose only reference field names the entry
      itself fails the same way. */
  lemma SelfNamingEntryOverflows(reg: Registry, objs: Entries, sid: string, key: string, cache: Cache)
    requires sid in objs && sid !in cache && ParseId(reg, sid).Ok?
    requires ParseId(reg, sid).value.0.primitives == []
    requires ParseId(reg, sid).value.0.refs.keys == [key]
    requires ParseId(reg, sid).value.0.refs.vals == map[key := RefSpec(SingleRef, ParseId(reg, sid).value.0.ctor)]
    requires EntryField(objs[sid], key) == Ref(sid)
    ensures Deserialize(reg, Serialization(sid, objs)).Fail?
  {
    var parsed := ParseId(reg, sid).value;
    var m := parsed.0;
    assert DeserializeItem(reg, objs, sid, map[], {sid}).Fail?;
    assert DeserializeRef(reg, objs, m.refs.vals[key], Ref(sid), map[], {sid}).Fail?;
    var source := objs[sid];
    assert DeserializeRefs(reg, objs, source, m.refs, m.refs.keys, map k | k in m.primitives :: EntryField(source, k), map[], {sid}).Fail?;
    assert ReadEntry(reg, objs, sid, parsed, map[], {sid}).Fail?;
    assert {} + {sid} == {sid};
    assert DeserializeItem(reg, objs, sid, map[], {}).Fail?;
  }

  /** The class a reference field declares plays no part: writing uses the
      object's own class, and reading uses the class the scoped id names. */
  lemma RefTargetIgnored(reg: Registry, heap: Heap, objs: Entries, kind: RefKind, t1: Class, t2: Class,
                         v: Value<Vectors.Ref>, w: Value<string>, out: Entries, cache: Cache, stack: set<string>, fuel: nat)
    ensures SerializeRef(reg, heap, RefSpec(kind, t1), v, out, fuel) == SerializeRef(reg, heap, RefSpec(kind, t2), v, out, fuel)
    ensures DeserializeRef(reg, objs, RefSpec(kind, t1), w, cache, stack) == DeserializeRef(reg, objs, RefSpec(kind, t2), w, cache, stack)
  {
  }
}

/** Converting a tool's JSON schema to the subset the Gemini API accepts.

    `convert_schema` copies the supported fields in the iteration order of a Python set, which
    the language leaves open; `order` stands for that order and the results hold for every one. */
module GeminiSchema {
  import opened Text
  import opened Json

  const TYPES := {"string", "number", "integer", "boolean", "array", "object", "null"}
  const FIELDS := {"title", "description", "enum", "minimum", "maximum", "maxItems", "minItems", "nullable", "required"}

  predicate FormatAllowed(type_: string, format: Json) {
    match type_
    case "string" => format in {Str("enum"), Str("date-time")}
    case "integer" => format in {Str("int32"), Str("int64")}
    case "number" => format in {Str("float"), Str("double")}
    case _ => false
  }

  predicate Hashable(v: Json) {
    !v.Arr? && !v.Obj?
  }

  /** The position of a key, or the number of fields. */
  function Index(fs: Fields, key: string): (i: nat)
    ensures i <= |fs|
  {
    if fs == [] || fs[0].key == key then 0 else 1 + Index(fs[1..], key)
  }

  lemma {:induction false} IndexFinds(fs: Fields, key: string)
    ensures var i := Index(fs, key);
            Find(fs, key) == (if i < |fs| then Some(fs[i].value) else None) && (i < |fs| ==> fs[i].key == key)
  {
    if fs != [] && fs[0].key != key {
      IndexFinds(fs[1..], key);
    }
  }

  /** The first type that is not "null". */
  function FirstType(types: seq<Json>): Json {
    if types == [] then Str("string")
    else if types[0] != Str("null") then types[0]
    else FirstType(types[1..])
  }

  function TargetType(fields: Fields): Json {
    match Find(fields, "type")
    case Some(Arr(types)) => FirstType(types)
    case Some(v) => v
    case None => Null
  }

  predicate Supported(t: Json) {
    t.Str? && t.s in TYPES
  }

  /** The supported fields of a schema, in the given order. */
  function Pick(order: seq<string>, fields: Fields): Fields {
    if order == [] then []
    else
      (match Find(fields, order[0]) case Some(v) => [Field(order[0], v)] case None => []) + Pick(order[1..], fields)
  }

  function Optional(key: string, value: Option<Json>): Fields {
    match value case Some(v) => [Field(key, v)] case None => []
  }

  /** What a result node is made of. */
  datatype Parts = Parts(type_: string, format: Option<Json>, extras: Fields, properties: Fields, items: Option<Json>)

  /** A result node: its type, then what else it has, in the order of insertion. */
  function Assemble(p: Parts): Fields {
    [Field("type", Str(p.type_))] + Optional("format", p.format) + p.extras + PropertiesPart(p.properties)
        + Optional("items", p.items)
  }

  function PropertiesPart(properties: Fields): Fields {
    if properties == [] then [] else [Field("properties", Obj(properties))]
  }

  /** `convert_schema`; None stands for the exception a malformed schema raises. */
  function Convert(order: seq<string>, schema: Json): Option<Json>
    decreases schema, 1
  {
    match schema
    case Obj(fields) =>
      var a := Index(fields, "anyOf");
      if a < |fields| then
        (match fields[a].value
         case Arr(options) => AnyOf(ConvertAll(order, options))
         case Obj(fs) => AnyOf(if fs == [] then Some([]) else None)
         case Str(s) => AnyOf(if s == [] then Some([]) else None)
         case _ => None)
      else
        (match ConvertPlain(order, fields)
         case Some(parts) => Some(Obj(Assemble(parts)))
         case None => None)
    case _ => None
  }

  function AnyOf(options: Option<seq<Json>>): Option<Json> {
    match options case Some(converted) => Some(Obj([Field("anyOf", Arr(converted))])) case None => None
  }

  /** A schema without `anyOf`. */
  function ConvertPlain(order: seq<string>, fields: Fields): Option<Parts>
    decreases fields, 1
  {
    var target := TargetType(fields);
    var format := Find(fields, "format");
    if !Hashable(target) || (Supported(target) && format.Some? && !Hashable(format.value)) then None
    else
      var properties, items := ConvertPropertiesOf(order, fields), ConvertItemsOf(order, fields, target);
      if properties.None? || items.None? then None
      else if Supported(target) then
        var kept := if format.Some? && FormatAllowed(target.s, format.value) then format else None;
        Some(Parts(target.s, kept, Pick(order, fields), properties.value, items.value))
      else Some(Parts("null", None, Pick(order, fields), properties.value, items.value))
  }

  function ConvertAll(order: seq<string>, schemas: seq<Json>): Option<seq<Json>>
    decreases schemas, 0
  {
    if schemas == [] then Some([])
    else
      var first, rest := Convert(order, schemas[0]), ConvertAll(order, schemas[1..]);
      if first.None? || rest.None? then None else Some([first.value] + rest.value)
  }

  /** The converted properties; none at all when the schema has no properties. */
  function ConvertPropertiesOf(order: seq<string>, fields: Fields): Option<Fields>
    decreases fields, 0
  {
    var i := Index(fields, "properties");
    if i == |fields| then Some([])
    else if fields[i].value.Obj? then ConvertProperties(order, fields[i].value.fields)
    else None
  }

  function ConvertProperties(order: seq<string>, properties: Fields): Option<Fields>
    decreases properties, 0
  {
    if properties == [] then Some([])
    else
      var first, rest := Convert(order, properties[0].value), ConvertProperties(order, properties[1..]);
      if first.None? || rest.None? then None
      else Some([Field(properties[0].key, WithoutDefaults(first.value))] + rest.value)
  }

  function WithoutDefaults(schema: Json): Json {
    match schema
    case Obj(fs) => Obj(Remove(Remove(fs, "default"), "additionalProperties"))
    case _ => schema
  }

  /** The `items` of an array schema, of which every array has some; None inside for others. */
  function ConvertItemsOf(order: seq<string>, fields: Fields, target: Json): Option<Option<Json>>
    decreases fields, 0
  {
    if target != Str("array") then Some(None)
    else
      var i := Index(fields, "items");
      if i < |fields| && fields[i].value.Obj? then
        (match Convert(order, fields[i].value)
         case Some(items) => Some(Some(items))
         case None => None)
      else Some(Some(Obj([Field("type", Str("string"))])))
  }

  // ---------------------------------------------------------------- the closed shape

  ghost predicate ClosedItems(order: seq<string>, items: seq<Json>)
    decreases items, 0
  {
    forall i :: 0 <= i < |items| ==> Closed(order, items[i])
  }

  ghost predicate ClosedFields(order: seq<string>, fs: Fields)
    decreases fs, 0
  {
    forall i :: 0 <= i < |fs| ==> Closed(order, fs[i].value)
  }

  ghost predicate ClosedEntry(order: seq<string>, f: Field)
    decreases f, 0
  {
    if f.key == "items" then Closed(order, f.value)
    else if f.key == "properties" then f.value.Obj? && f.value.fields != [] && ClosedFields(order, f.value.fields)
    else f.key == "type" || f.key == "format" || f.key in order
  }

  /** A node the API accepts: an `anyOf` of such nodes, or a node with a supported type, `items`
      exactly on arrays, `format` only where the type allows it, closed children and no key
      outside the supported ones. */
  ghost predicate Closed(order: seq<string>, j: Json)
    decreases j, 0
  {
    j.Obj? &&
    var fs := j.fields;
    if Index(fs, "anyOf") < |fs| then
      |fs| == 1 && fs[0].value.Arr? && ClosedItems(order, fs[0].value.items)
    else
      var t, format := Find(fs, "type"), Find(fs, "format");
      && t.Some? && Supported(t.value)
      && (format.Some? ==> FormatAllowed(t.value.s, format.value))
      && (Find(fs, "items").Some? <==> t.value.s == "array")
      && (forall i :: 0 <= i < |fs| ==> ClosedEntry(order, fs[i]))
  }

  /** The iteration order of the set of supported fields. */
  ghost predicate SetOrder(order: seq<string>) {
    (forall i, j :: 0 <= i < j < |order| ==> order[i] != order[j]) && (set k | k in order) == FIELDS
  }

  // ---------------------------------------------------------------- what a result node holds

  /** The keys the converter treats by name. */
  ghost predicate Reserved(key: string) {
    key == "anyOf" || key == "type" || key == "format" || key == "properties" || key == "items" ||
    key == "default" || key == "additionalProperties"
  }

  /** No supported field is one of them. */
  ghost predicate Avoids(order: seq<string>) {
    forall k :: k in order ==> !Reserved(k)
  }

  lemma SetOrderAvoids(order: seq<string>)
    requires SetOrder(order)
    ensures Avoids(order)
  {
    forall k | k in order ensures !Reserved(k) {
      assert k in set x | x in order;
      FieldNames(k);
    }
  }

  lemma FieldNames(k: string)
    requires k in FIELDS
    ensures |k| != 6 && |k| != 10 && |k| != 20
    ensures (|k| == 4 ==> k[0] == 'e') && (|k| == 5 ==> k[0] == 't') && (|k| == 7 ==> k[0] == 'm')
  {
  }

  lemma {:induction false} FindConcat(a: Fields, b: Fields, key: string)
    ensures Find(a + b, key) == if Find(a, key).Some? then Find(a, key) else Find(b, key)
  {
    if a == [] {
      assert a + b == b;
    } else {
      assert (a + b)[1..] == a[1..] + b;
      FindConcat(a[1..], b, key);
    }
  }

  lemma {:induction false} PickFind(order: seq<string>, fields: Fields, key: string)
    ensures Find(Pick(order, fields), key) == if key in order then Find(fields, key) else None
  {
    if order != [] {
      var first := match Find(fields, order[0]) case Some(v) => [Field(order[0], v)] case None => [];
      FindConcat(first, Pick(order[1..], fields), key);
      PickFind(order[1..], fields, key);
      if first != [] {
        assert first[1..] == [];
      }
    }
  }

  lemma {:induction false} PickSame(order: seq<string>, a: Fields, b: Fields)
    requires forall k :: k in order ==> Find(a, k) == Find(b, k)
    ensures Pick(order, a) == Pick(order, b)
  {
    if order != [] {
      assert order[0] in order;
      PickSame(order[1..], a, b);
    }
  }

  lemma SingleFind(key: string, value: Json, other: string)
    ensures Find([Field(key, value)], other) == if other == key then Some(value) else None
  {
    assert [Field(key, value)][1..] == [];
  }

  lemma OptionalFind(key: string, value: Option<Json>, other: string)
    ensures Find(Optional(key, value), other) == if other == key then value else None
  {
    if value.Some? { SingleFind(key, value.value, other); }
  }

  ghost function Held(p: Parts, key: string): Option<Json> {
    if key == "type" then Some(Str(p.type_))
    else if key == "format" then p.format
    else if key == "properties" then (if p.properties == [] then None else Some(Obj(p.properties)))
    else if key == "items" then p.items
    else Find(p.extras, key)
  }

  /** What a result node holds under each key. */
  lemma AssembleFind(p: Parts, key: string)
    requires Reserved(key) ==> Find(p.extras, key) == None
    ensures Find(Assemble(p), key) == Held(p, key)
    ensures var i := Index(Assemble(p), key);
            Held(p, key) == if i < |Assemble(p)| then Some(Assemble(p)[i].value) else None
  {
    var a, b := [Field("type", Str(p.type_))], Optional("format", p.format);
    var c, d := PropertiesPart(p.properties), Optional("items", p.items);
    assert Assemble(p) == (((a + b) + p.extras) + c) + d;
    FindConcat(((a + b) + p.extras) + c, d, key);
    FindConcat((a + b) + p.extras, c, key);
    FindConcat(a + b, p.extras, key);
    FindConcat(a, b, key);
    SingleFind("type", Str(p.type_), key);
    OptionalFind("format", p.format, key);
    OptionalFind("items", p.items, key);
    if p.properties != [] { SingleFind("properties", Obj(p.properties), key); }
    IndexFinds(Assemble(p), key);
  }

  /** What the converter makes of a schema without `anyOf`. */
  ghost predicate GoodParts(order: seq<string>, p: Parts) {
    && Supported(Str(p.type_))
    && (p.format.Some? ==> FormatAllowed(p.type_, p.format.value))
    && (p.items.Some? <==> p.type_ == "array")
    && (forall k :: Reserved(k) ==> Find(p.extras, k) == None)
    && (forall f :: f in p.extras ==> f.key in order)
    && Pick(order, Assemble(p)) == p.extras
  }

  lemma PlainIsGood(order: seq<string>, fields: Fields)
    requires Avoids(order) && ConvertPlain(order, fields).Some?
    ensures GoodParts(order, ConvertPlain(order, fields).value)
  {
    var p := ConvertPlain(order, fields).value;
    assert p.extras == Pick(order, fields);
    forall k ensures Find(p.extras, k) == if k in order then Find(fields, k) else None {
      PickFind(order, fields, k);
    }
    PickKeys(order, fields);
    forall k | k in order ensures Find(Assemble(p), k) == Find(fields, k) {
      AssembleFind(p, k);
    }
    PickSame(order, Assemble(p), fields);
  }

  lemma {:induction false} PickKeys(order: seq<string>, fields: Fields)
    ensures forall f :: f in Pick(order, fields) ==> f.key in order
  {
    if order != [] {
      PickKeys(order[1..], fields);
    }
  }

  // ---------------------------------------------------------------- idempotence

  /** A result never carries the keys the converter strips from properties. */
  lemma ResultLacks(order: seq<string>, schema: Json, key: string)
    requires Avoids(order) && Convert(order, schema).Some? && (key == "default" || key == "additionalProperties")
    ensures var r := Convert(order, schema).value; r.Obj? && Find(r.fields, key) == None
  {
    var fields := schema.fields;
    var r := Convert(order, schema).value;
    if Index(fields, "anyOf") < |fields| {
      SingleFind("anyOf", r.fields[0].value, key);
    } else {
      PlainIsGood(order, fields);
      AssembleFind(ConvertPlain(order, fields).value, key);
    }
  }

  lemma NoDefaultsLeft(order: seq<string>, schema: Json)
    requires Avoids(order) && Convert(order, schema).Some?
    ensures WithoutDefaults(Convert(order, schema).value) == Convert(order, schema).value
  {
    var r := Convert(order, schema).value;
    ResultLacks(order, schema, "default");
    ResultLacks(order, schema, "additionalProperties");
    FindHas(r.fields, "default");
    RemoveAbsent(r.fields, "default");
    FindHas(r.fields, "additionalProperties");
    RemoveAbsent(r.fields, "additionalProperties");
  }

  lemma {:induction false} EmptyPick(order: seq<string>)
    ensures Pick(order, []) == []
  {
    if order != [] {
      EmptyPick(order[1..]);
    }
  }

  lemma StringSchemaFixed(order: seq<string>)
    requires Avoids(order)
    ensures Convert(order, Obj([Field("type", Str("string"))])) == Some(Obj([Field("type", Str("string"))]))
  {
    var fields := [Field("type", Str("string"))];
    assert fields[1..] == [];
    EmptyPick(order);
    forall k | k in order ensures Find(fields, k) == Find([], k) {
      SingleFind("type", Str("string"), k);
    }
    PickSame(order, fields, []);
    assert Assemble(Parts("string", None, [], [], None)) == fields;
  }

  /** Converting the result of a conversion gives it back. */
  lemma {:induction false} ConvertIdempotentFor(order: seq<string>, schema: Json)
    requires Avoids(order) && Convert(order, schema).Some?
    ensures Convert(order, Convert(order, schema).value) == Convert(order, schema)
    decreases schema, 1
  {
    var fields := schema.fields;
    var a := Index(fields, "anyOf");
    if a < |fields| {
      var options := if fields[a].value.Arr? then fields[a].value.items else [];
      ConvertAllIdempotent(order, options);
      AnyOfConverts(order, ConvertAll(order, options).value);
    } else {
      PlainIdempotent(order, fields);
      var p := ConvertPlain(order, fields).value;
      PlainIsGood(order, fields);
      AssembleFind(p, "anyOf");
      ConvertsToNode(order, Assemble(p), p);
    }
  }

  lemma AnyOfConverts(order: seq<string>, options: seq<Json>)
    requires ConvertAll(order, options) == Some(options)
    ensures Convert(order, Obj([Field("anyOf", Arr(options))])) == Some(Obj([Field("anyOf", Arr(options))]))
  {
    assert Index([Field("anyOf", Arr(options))], "anyOf") == 0;
  }

  lemma ConvertsToNode(order: seq<string>, r: Fields, p: Parts)
    requires Index(r, "anyOf") == |r| && ConvertPlain(order, r) == Some(p)
    ensures Convert(order, Obj(r)) == Some(Obj(Assemble(p)))
  {
  }

  lemma {:induction false} ConvertAllIdempotent(order: seq<string>, schemas: seq<Json>)
    requires Avoids(order) && ConvertAll(order, schemas).Some?
    ensures ConvertAll(order, ConvertAll(order, schemas).value) == ConvertAll(order, schemas)
    decreases schemas, 0
  {
    if schemas != [] {
      ConvertIdempotentFor(order, schemas[0]);
      ConvertAllIdempotent(order, schemas[1..]);
      assert ConvertAll(order, schemas).value[1..] == ConvertAll(order, schemas[1..]).value;
    }
  }

  lemma {:induction false} ConvertPropertiesIdempotent(order: seq<string>, properties: Fields)
    requires Avoids(order) && ConvertProperties(order, properties).Some?
    ensures ConvertProperties(order, ConvertProperties(order, properties).value) == ConvertProperties(order, properties)
    decreases properties, 0
  {
    if properties != [] {
      ConvertIdempotentFor(order, properties[0].value);
      NoDefaultsLeft(order, properties[0].value);
      ConvertPropertiesIdempotent(order, properties[1..]);
      assert ConvertProperties(order, properties).value[1..] == ConvertProperties(order, properties[1..]).value;
    }
  }

  lemma {:induction false} PlainIdempotent(order: seq<string>, fields: Fields)
    requires Avoids(order) && ConvertPlain(order, fields).Some?
    ensures ConvertPlain(order, Assemble(ConvertPlain(order, fields).value)) == ConvertPlain(order, fields)
    decreases fields, 1
  {
    var p := ConvertPlain(order, fields).value;
    PlainIsGood(order, fields);
    var i := Index(fields, "properties");
    if i < |fields| {
      ConvertPropertiesIdempotent(order, fields[i].value.fields);
    }
    assert ConvertProperties(order, p.properties) == Some(p.properties);
    StringSchemaFixed(order);
    var j := Index(fields, "items");
    if p.items.Some? && j < |fields| && fields[j].value.Obj? {
      ConvertIdempotentFor(order, fields[j].value);
    }
    assert p.items.Some? ==> p.items.value.Obj? && Convert(order, p.items.value) == p.items;
    GoodPartsFixed(order, p);
  }

  /** Good parts with fixed children are what the assembled node converts to. */
  lemma GoodPartsFixed(order: seq<string>, p: Parts)
    requires GoodParts(order, p) && ConvertProperties(order, p.properties) == Some(p.properties)
    requires p.items.Some? ==> p.items.value.Obj? && Convert(order, p.items.value) == p.items
    ensures ConvertPlain(order, Assemble(p)) == Some(p)
  {
    var r := Assemble(p);
    AssembleFind(p, "type");
    AssembleFind(p, "format");
    PropertiesFixed(order, p);
    ItemsFixed(order, p);
    ConvertsToParts(order, r, p);
  }

  lemma ConvertsToParts(order: seq<string>, r: Fields, p: Parts)
    requires Find(r, "type") == Some(Str(p.type_)) && Supported(Str(p.type_))
    requires Find(r, "format") == p.format && (p.format.Some? ==> FormatAllowed(p.type_, p.format.value))
    requires ConvertPropertiesOf(order, r) == Some(p.properties) &&
             ConvertItemsOf(order, r, Str(p.type_)) == Some(p.items)
    requires Pick(order, r) == p.extras
    ensures ConvertPlain(order, r) == Some(p)
  {
  }

  lemma PropertiesFixed(order: seq<string>, p: Parts)
    requires Find(p.extras, "properties") == None && ConvertProperties(order, p.properties) == Some(p.properties)
    ensures ConvertPropertiesOf(order, Assemble(p)) == Some(p.properties)
  {
    AssembleFind(p, "properties");
  }

  lemma ItemsFixed(order: seq<string>, p: Parts)
    requires Find(p.extras, "items") == None && (p.items.Some? <==> p.type_ == "array")
    requires p.items.Some? ==> p.items.value.Obj? && Convert(order, p.items.value) == p.items
    ensures ConvertItemsOf(order, Assemble(p), Str(p.type_)) == Some(p.items)
  {
    AssembleFind(p, "items");
  }

  /** Converting the result of a conversion gives it back. */
  lemma ConvertIdempotent(order: seq<string>, schema: Json)
    requires SetOrder(order) && Convert(order, schema).Some?
    ensures Convert(order, Convert(order, schema).value) == Convert(order, schema)
  {
    SetOrderAvoids(order);
    ConvertIdempotentFor(order, schema);
  }

  // ---------------------------------------------------------------- closure

  lemma StringSchemaClosed(order: seq<string>)
    ensures Closed(order, Obj([Field("type", Str("string"))]))
  {
    var fs := [Field("type", Str("string"))];
    assert fs[1..] == [];
    assert Find(fs, "type") == Some(Str("string"));
  }

  lemma {:induction false} ConvertClosesFor(order: seq<string>, schema: Json)
    requires Avoids(order) && Convert(order, schema).Some?
    ensures Closed(order, Convert(order, schema).value)
    decreases schema, 1
  {
    var fields := schema.fields;
    var a := Index(fields, "anyOf");
    if a < |fields| {
      var options := if fields[a].value.Arr? then fields[a].value.items else [];
      ConvertAllCloses(order, options);
    } else {
      PlainCloses(order, fields);
    }
  }

  lemma {:induction false} ConvertAllCloses(order: seq<string>, schemas: seq<Json>)
    requires Avoids(order) && ConvertAll(order, schemas).Some?
    ensures ClosedItems(order, ConvertAll(order, schemas).value)
    decreases schemas, 0
  {
    if schemas != [] {
      ConvertClosesFor(order, schemas[0]);
      ConvertAllCloses(order, schemas[1..]);
    }
  }

  lemma {:induction false} ConvertPropertiesCloses(order: seq<string>, properties: Fields)
    requires Avoids(order) && ConvertProperties(order, properties).Some?
    ensures ClosedFields(order, ConvertProperties(order, properties).value)
    decreases properties, 0
  {
    if properties != [] {
      ConvertClosesFor(order, properties[0].value);
      NoDefaultsLeft(order, properties[0].value);
      ConvertPropertiesCloses(order, properties[1..]);
    }
  }

  lemma {:induction false} PlainCloses(order: seq<string>, fields: Fields)
    requires Avoids(order) && ConvertPlain(order, fields).Some?
    ensures Closed(order, Obj(Assemble(ConvertPlain(order, fields).value)))
    decreases fields, 1
  {
    var p := ConvertPlain(order, fields).value;
    PlainIsGood(order, fields);
    var i := Index(fields, "properties");
    if i < |fields| {
      ConvertPropertiesCloses(order, fields[i].value.fields);
    }
    StringSchemaClosed(order);
    var j := Index(fields, "items");
    if p.items.Some? && j < |fields| && fields[j].value.Obj? {
      ConvertClosesFor(order, fields[j].value);
    }
    AssembleCloses(order, p);
  }

  lemma AssembleCloses(order: seq<string>, p: Parts)
    requires Avoids(order) && GoodParts(order, p)
    requires ClosedFields(order, p.properties) && (p.items.Some? ==> Closed(order, p.items.value))
    ensures Closed(order, Obj(Assemble(p)))
  {
    var r := Assemble(p);
    AssembleFind(p, "anyOf");
    AssembleFind(p, "type");
    AssembleFind(p, "format");
    AssembleFind(p, "items");
    forall i | 0 <= i < |r| ensures ClosedEntry(order, r[i]) {
      EntryCloses(order, p, r[i]);
    }
  }

  lemma EntryCloses(order: seq<string>, p: Parts, f: Field)
    requires Avoids(order) && f in Assemble(p) && forall f :: f in p.extras ==> f.key in order
    requires ClosedFields(order, p.properties) && (p.items.Some? ==> Closed(order, p.items.value))
    ensures ClosedEntry(order, f)
  {
    assert f == Field("type", Str(p.type_)) || f in Optional("format", p.format) || f in p.extras
        || f in PropertiesPart(p.properties) || f in Optional("items", p.items);
  }

  /** Every result lies in the closed shape, with no key outside the supported ones. */
  lemma ConvertCloses(order: seq<string>, schema: Json)
    requires SetOrder(order) && Convert(order, schema).Some?
    ensures Closed(order, Convert(order, schema).value)
  {
    SetOrderAvoids(order);
    ConvertClosesFor(order, schema);
  }

  // ---------------------------------------------------------------- preservation

  lemma {:induction false} PropertiesAt(order: seq<string>, properties: Fields, i: nat)
    requires Avoids(order) && ConvertProperties(order, properties).Some? && i < |properties|
    ensures var r := ConvertProperties(order, properties).value;
            |r| == |properties| && r[i].key == properties[i].key &&
                Convert(order, properties[i].value) == Some(r[i].value)
  {
    NoDefaultsLeft(order, properties[0].value);
    if i > 0 {
      PropertiesAt(order, properties[1..], i - 1);
    } else if |properties| > 1 {
      PropertiesAt(order, properties[1..], 0);
    }
  }

  /** A converted node keeps every supported field as it was, and its type if that is supported. */
  lemma ConvertKeeps(order: seq<string>, fields: Fields, k: string)
    requires SetOrder(order) && Find(fields, "anyOf") == None && Convert(order, Obj(fields)).Some?
    ensures var r := Convert(order, Obj(fields)).value;
            r.Obj? &&
            (k in order ==> Find(r.fields, k) == Find(fields, k)) &&
            Find(r.fields, "type") == Some(if Supported(TargetType(fields)) then TargetType(fields) else Str("null"))
  {
    SetOrderAvoids(order);
    IndexFinds(fields, "anyOf");
    PlainIsGood(order, fields);
    var p := ConvertPlain(order, fields).value;
    AssembleFind(p, "type");
    if k in order {
      AssembleFind(p, k);
      PickFind(order, fields, k);
    }
  }

  /** Entry i of the properties, by name and order, is converted; no properties appear from nowhere. */
  ghost predicate PropertyKept(order: seq<string>, before: Option<Json>, after: Option<Json>, i: nat) {
    match before
    case Some(Obj(given)) =>
      given != [] ==>
        && after.Some? && after.value.Obj? && |after.value.fields| == |given|
        && (i < |given| ==>
              after.value.fields[i].key == given[i].key &&
                  Convert(order, given[i].value) == Some(after.value.fields[i].value))
    case _ => after == None
  }

  /** A converted node keeps its properties. */
  lemma ConvertKeepsProperties(order: seq<string>, fields: Fields, i: nat)
    requires SetOrder(order) && Find(fields, "anyOf") == None && Convert(order, Obj(fields)).Some?
    ensures var r := Convert(order, Obj(fields)).value;
            r.Obj? && PropertyKept(order, Find(fields, "properties"), Find(r.fields, "properties"), i)
  {
    SetOrderAvoids(order);
    NodeProperties(order, fields);
    PropertiesKept(order, fields, i);
  }

  ghost function NonEmpty(properties: Fields): Option<Json> {
    if properties == [] then None else Some(Obj(properties))
  }

  lemma NodeProperties(order: seq<string>, fields: Fields)
    requires Avoids(order) && Find(fields, "anyOf") == None && Convert(order, Obj(fields)).Some?
    ensures ConvertPropertiesOf(order, fields).Some? && Convert(order, Obj(fields)).value.Obj?
    ensures Find(Convert(order, Obj(fields)).value.fields, "properties")
         == NonEmpty(ConvertPropertiesOf(order, fields).value)
  {
    IndexFinds(fields, "anyOf");
    PlainIsGood(order, fields);
    AssembleFind(ConvertPlain(order, fields).value, "properties");
  }

  lemma PropertiesKept(order: seq<string>, fields: Fields, i: nat)
    requires Avoids(order) && ConvertPropertiesOf(order, fields).Some?
    ensures PropertyKept(order, Find(fields, "properties"), NonEmpty(ConvertPropertiesOf(order, fields).value), i)
  {
    IndexFinds(fields, "properties");
    var j := Index(fields, "properties");
    if j < |fields| {
      var before := fields[j].value.fields;
      if before != [] {
        PropertiesAt(order, before, 0);
        if i < |before| {
          PropertiesAt(order, before, i);
        }
      }
    }
  }

  // ---------------------------------------------------------------- every node, from the schema alone

  /** The type asked for: of a list its first type other than "null", or "string". */
  ghost predicate AsksFor(fields: Fields, t: Json) {
    match Find(fields, "type")
    case Some(Arr(types)) =>
      || (t == Str("string") && forall i :: 0 <= i < |types| ==> types[i] == Str("null"))
      || exists k :: 0 <= k < |types| && IsFirstType(types, k) && t == types[k]
    case Some(v) => t == v
    case None => t == Null
  }

  ghost predicate IsFirstType(types: seq<Json>, k: nat)
    requires k < |types|
  {
    types[k] != Str("null") && forall i :: 0 <= i < k ==> types[i] == Str("null")
  }

  lemma {:induction false} FirstTypeExact(types: seq<Json>)
    ensures || (FirstType(types) == Str("string") && forall i :: 0 <= i < |types| ==> types[i] == Str("null"))
            || exists k :: 0 <= k < |types| && IsFirstType(types, k) && FirstType(types) == types[k]
  {
    if types != [] && types[0] == Str("null") {
      FirstTypeExact(types[1..]);
      if k :| 0 <= k < |types[1..]| && IsFirstType(types[1..], k) && FirstType(types[1..]) == types[1..][k] {
        forall i | 0 <= i < k + 1 ensures types[i] == Str("null") {
          assert i == 0 || types[i] == types[1..][i - 1];
        }
        assert IsFirstType(types, k + 1);
      } else {
        forall i | 0 <= i < |types| ensures types[i] == Str("null") {
          assert i == 0 || types[i] == types[1..][i - 1];
        }
      }
    } else if types != [] {
      assert IsFirstType(types, 0);
    }
  }

  lemma TargetIsAskedFor(fields: Fields)
    ensures AsksFor(fields, TargetType(fields))
  {
    if Find(fields, "type").Some? && Find(fields, "type").value.Arr? {
      FirstTypeExact(Find(fields, "type").value.items);
    }
  }

  lemma AskedForOnce(fields: Fields, t: Json, u: Json)
    requires AsksFor(fields, t) && AsksFor(fields, u)
    ensures t == u
  {
    if Find(fields, "type").Some? && Find(fields, "type").value.Arr? {
      var types := Find(fields, "type").value.items;
      if j, k :| 0 <= j < |types| && IsFirstType(types, j) && 0 <= k < |types| && IsFirstType(types, k) {
        assert j == k;
      }
    }
  }

  ghost predicate ConvertsTo(order: seq<string>, schema: Json, r: Json) {
    Convert(order, schema) == Some(r)
  }

  /** The properties converted, by name and order; none at all if there are none. */
  ghost predicate PropertiesHold(order: seq<string>, given: Option<Json>, held: Option<Json>) {
    if given.None? || given.value == Obj([]) then held == None
    else
      && given.value.Obj? && held.Some? && held.value.Obj? && |held.value.fields| == |given.value.fields|
      && forall i :: 0 <= i < |given.value.fields| ==>
           held.value.fields[i].key == given.value.fields[i].key &&
           ConvertsTo(order, given.value.fields[i].value, held.value.fields[i].value)
  }

  /** What a node without `anyOf` holds under any key, t being the type it asks for. */
  ghost predicate NodeHolds(order: seq<string>, fields: Fields, t: Json, r: Fields, key: string) {
    var held := Find(r, key);
    match key
    case "type" =>
      held == Some(if t in {Str("string"), Str("number"), Str("integer"), Str("boolean"), Str("array"), Str("object"),
                            Str("null")} then t else Str("null"))
    case "format" =>
      held == if (t, Find(fields, "format")) in
                   {(Str("string"), Some(Str("enum"))), (Str("string"), Some(Str("date-time"))),
                    (Str("integer"), Some(Str("int32"))), (Str("integer"), Some(Str("int64"))),
                    (Str("number"), Some(Str("float"))), (Str("number"), Some(Str("double")))}
              then Find(fields, "format") else None
    case "items" =>
      if t != Str("array") then held == None
      else
        var items := Find(fields, "items");
        held.Some? && if items.Some? && items.value.Obj? then ConvertsTo(order, items.value, held.value)
                      else held.value == Obj([Field("type", Str("string"))])
    case "properties" => PropertiesHold(order, Find(fields, "properties"), held)
    case _ => held == if key in order then Find(fields, key) else None
  }

  lemma AssembledParts(order: seq<string>, fields: Fields, key: string)
    requires Avoids(order) && ConvertPlain(order, fields).Some?
    ensures Find(Assemble(ConvertPlain(order, fields).value), key) == Held(ConvertPlain(order, fields).value, key)
    ensures !Reserved(key) ==>
              Held(ConvertPlain(order, fields).value, key) == if key in order then Find(fields, key) else None
  {
    PlainIsGood(order, fields);
    AssembleFind(ConvertPlain(order, fields).value, key);
    PickFind(order, fields, key);
  }

  lemma ItemsHeld(order: seq<string>, fields: Fields, target: Json)
    requires ConvertItemsOf(order, fields, target).Some?
    ensures var held, items := ConvertItemsOf(order, fields, target).value, Find(fields, "items");
            if target != Str("array") then held == None
            else held.Some? && if items.Some? && items.value.Obj? then ConvertsTo(order, items.value, held.value)
                               else held.value == Obj([Field("type", Str("string"))])
  {
    IndexFinds(fields, "items");
  }

  lemma PropertiesHeld(order: seq<string>, fields: Fields)
    requires Avoids(order) && ConvertPropertiesOf(order, fields).Some?
    ensures PropertiesHold(order, Find(fields, "properties"), NonEmpty(ConvertPropertiesOf(order, fields).value))
  {
    IndexFinds(fields, "properties");
    var given := Find(fields, "properties");
    if given.Some? && given.value.fields != [] {
      PropertiesAt(order, given.value.fields, 0);
      forall i | 0 <= i < |given.value.fields|
        ensures var held := ConvertPropertiesOf(order, fields).value[i];
                held.key == given.value.fields[i].key && ConvertsTo(order, given.value.fields[i].value, held.value)
      {
        PropertiesAt(order, given.value.fields, i);
      }
    }
  }

  /** A converted node holds under every key what the schema asks for there. */
  lemma NodeExact(order: seq<string>, fields: Fields, t: Json, key: string)
    requires SetOrder(order) && Find(fields, "anyOf") == None && Convert(order, Obj(fields)).Some?
    requires AsksFor(fields, t)
    ensures Convert(order, Obj(fields)).value.Obj?
    ensures NodeHolds(order, fields, t, Convert(order, Obj(fields)).value.fields, key)
  {
    SetOrderAvoids(order);
    IndexFinds(fields, "anyOf");
    TargetIsAskedFor(fields);
    AskedForOnce(fields, t, TargetType(fields));
    AssembledParts(order, fields, key);
    match key
    case "type" =>
    case "format" =>
    case "items" => ItemsHeld(order, fields, t);
    case "properties" => PropertiesHeld(order, fields);
    case _ =>
      if key in order {
        assert !Reserved(key);
      } else if Reserved(key) {
        PlainIsGood(order, fields);
      }
  }

  lemma {:induction false} AllAt(order: seq<string>, schemas: seq<Json>, i: nat)
    requires ConvertAll(order, schemas).Some?
    ensures |ConvertAll(order, schemas).value| == |schemas|
    ensures i < |schemas| ==> ConvertsTo(order, schemas[i], ConvertAll(order, schemas).value[i])
    decreases schemas
  {
    if schemas != [] {
      AllAt(order, schemas[1..], if i > 0 then i - 1 else 0);
    }
  }

  /** Of an `anyOf` every option is kept, converted, in its place, and nothing else. */
  lemma AnyOfExact(order: seq<string>, fields: Fields, options: seq<Json>)
    requires Find(fields, "anyOf") == Some(Arr(options)) && Convert(order, Obj(fields)).Some?
    ensures var r := Convert(order, Obj(fields)).value;
            && r.Obj? && |r.fields| == 1 && r.fields[0].key == "anyOf" && r.fields[0].value.Arr?
            && |r.fields[0].value.items| == |options|
            && forall i :: 0 <= i < |options| ==> ConvertsTo(order, options[i], r.fields[0].value.items[i])
  {
    IndexFinds(fields, "anyOf");
    AllAt(order, options, 0);
    forall i | 0 <= i < |options| ensures ConvertsTo(order, options[i], ConvertAll(order, options).value[i]) {
      AllAt(order, options, i);
    }
  }

  // ---------------------------------------------------------------- which schemas convert

  /** The schemas on which nothing is raised. */
  ghost predicate Convertible(schema: Json)
    decreases schema, 1
  {
    schema.Obj? && ConvertibleNode(schema.fields)
  }

  ghost predicate ConvertibleNode(fields: Fields)
    decreases fields, 2
  {
    if exists a: nat :: IsFirst(fields, "anyOf", a) then
      forall a: nat :: IsFirst(fields, "anyOf", a) ==>
        || fields[a].value in {Obj([]), Str("")}
        || (fields[a].value.Arr? && AllConvertible(fields[a].value.items))
    else
      && (forall t :: AsksFor(fields, t) ==>
            !t.Arr? && !t.Obj? &&
            (Supported(t) && Find(fields, "format").Some? ==>
               !Find(fields, "format").value.Arr? && !Find(fields, "format").value.Obj?))
      && (forall i: nat :: IsFirst(fields, "properties", i) ==>
            fields[i].value.Obj? && PropertiesConvertible(fields[i].value.fields))
      && (forall i: nat :: IsFirst(fields, "items", i) && fields[i].value.Obj? && AsksFor(fields, Str("array")) ==>
            Convertible(fields[i].value))
  }

  ghost predicate IsFirst(fields: Fields, key: string, i: nat) {
    i < |fields| && fields[i].key == key && forall j :: 0 <= j < i ==> fields[j].key != key
  }

  ghost predicate AllConvertible(schemas: seq<Json>)
    decreases schemas, 0
  {
    forall i :: 0 <= i < |schemas| ==> Convertible(schemas[i])
  }

  ghost predicate PropertiesConvertible(properties: Fields)
    decreases properties, 0
  {
    forall i :: 0 <= i < |properties| ==> Convertible(properties[i].value)
  }

  lemma {:induction false} IndexIsFirst(fields: Fields, key: string, i: nat)
    ensures IsFirst(fields, key, i) <==> i == Index(fields, key) < |fields|
  {
    if fields != [] && fields[0].key != key {
      if i > 0 {
        IndexIsFirst(fields[1..], key, i - 1);
        if IsFirst(fields, key, i) {
          forall j | 0 <= j < i - 1 ensures fields[1..][j].key != key {
            assert fields[1..][j] == fields[j + 1];
          }
        }
        if IsFirst(fields[1..], key, i - 1) {
          forall j | 0 <= j < i ensures fields[j].key != key {
            assert j == 0 || fields[j] == fields[1..][j - 1];
          }
        }
      }
    }
  }

  lemma FirstOf(fields: Fields, key: string)
    ensures forall i: nat :: IsFirst(fields, key, i) <==> i == Index(fields, key) < |fields|
  {
    forall i: nat ensures IsFirst(fields, key, i) <==> i == Index(fields, key) < |fields| {
      IndexIsFirst(fields, key, i);
    }
  }

  /** A conversion raises exactly on the schemas that are not convertible. */
  lemma {:induction false} ConvertsIff(order: seq<string>, schema: Json)
    ensures Convert(order, schema).Some? <==> Convertible(schema)
    decreases schema, 1
  {
    if schema.Obj? {
      var fields := schema.fields;
      var a := Index(fields, "anyOf");
      FirstOf(fields, "anyOf");
      if a < |fields| {
        assert IsFirst(fields, "anyOf", a);
        if fields[a].value.Arr? {
          AllConvertIff(order, fields[a].value.items);
        }
      } else {
        PlainConvertsIff(order, fields);
      }
    }
  }

  lemma {:induction false} PlainConvertsIff(order: seq<string>, fields: Fields)
    requires Index(fields, "anyOf") == |fields|
    ensures ConvertPlain(order, fields).Some? <==> ConvertibleNode(fields)
    decreases fields, 1
  {
    var t := TargetType(fields);
    FirstOf(fields, "anyOf");
    FirstOf(fields, "properties");
    FirstOf(fields, "items");
    TargetIsAskedFor(fields);
    forall u ensures AsksFor(fields, u) <==> u == t {
      if AsksFor(fields, u) {
        AskedForOnce(fields, u, t);
      }
    }
    var i, j := Index(fields, "properties"), Index(fields, "items");
    if i < |fields| && fields[i].value.Obj? {
      PropertiesConvertIff(order, fields[i].value.fields);
    }
    if j < |fields| && fields[j].value.Obj? {
      ConvertsIff(order, fields[j].value);
    }
  }

  lemma {:induction false} AllConvertIff(order: seq<string>, schemas: seq<Json>)
    ensures ConvertAll(order, schemas).Some? <==> AllConvertible(schemas)
    decreases schemas, 0
  {
    if schemas != [] {
      ConvertsIff(order, schemas[0]);
      AllConvertIff(order, schemas[1..]);
      if Convertible(schemas[0]) && AllConvertible(schemas[1..]) {
        forall i | 0 <= i < |schemas| ensures Convertible(schemas[i]) {
          assert i == 0 || schemas[i] == schemas[1..][i - 1];
        }
      }
    }
  }

  lemma {:induction false} PropertiesConvertIff(order: seq<string>, properties: Fields)
    ensures ConvertProperties(order, properties).Some? <==> PropertiesConvertible(properties)
    decreases properties, 0
  {
    if properties != [] {
      ConvertsIff(order, properties[0].value);
      PropertiesConvertIff(order, properties[1..]);
      if Convertible(properties[0].value) && PropertiesConvertible(properties[1..]) {
        forall i | 0 <= i < |properties| ensures Convertible(properties[i].value) {
          assert i == 0 || properties[i] == properties[1..][i - 1];
        }
      }
    }
  }
}

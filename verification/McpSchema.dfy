/** Lifting property-level `required: true` flags of MCP tool schemas to the parent's list. */
module McpSchema {
  import opened Text
  import opened Json

  // ---------------------------------------------------------------- Python's dict keys

  /** True and 1 are one dict key in Python, as are False and 0. */
  function KeyOf(v: Json): Json {
    match v
    case Bool(b) => Num(if b then 1.0 else 0.0)
    case _ => v
  }

  predicate Hashable(v: Json) {
    !v.Arr? && !v.Obj?
  }

  predicate Holds(vs: seq<Json>, v: Json) {
    exists i :: 0 <= i < |vs| && KeyOf(vs[i]) == KeyOf(v)
  }

  /** `list(dict.fromkeys(vs))` on hashable values. */
  function Dedup(vs: seq<Json>): seq<Json> {
    if vs == [] then []
    else
      var d, last := Dedup(vs[..|vs| - 1]), vs[|vs| - 1];
      if Holds(d, last) then d else d + [last]
  }

  ghost predicate NoRepeats(vs: seq<Json>) {
    forall i, j :: 0 <= i < j < |vs| ==> !PyEqual(vs[i], vs[j])
  }

  /** Equality of scalars in Python: a bool is also equal to the number 0 or 1. */
  ghost predicate PyEqual(a: Json, b: Json) {
    || a == b
    || (a, b) in {(Bool(true), Num(1.0)), (Num(1.0), Bool(true)), (Bool(false), Num(0.0)), (Num(0.0), Bool(false))}
  }

  lemma KeysExact(a: Json, b: Json)
    ensures KeyOf(a) == KeyOf(b) <==> PyEqual(a, b)
  {
  }

  lemma NoRepeatsIff(vs: seq<Json>)
    ensures NoRepeats(vs) <==> forall i, j :: 0 <= i < j < |vs| ==> KeyOf(vs[i]) != KeyOf(vs[j])
  {
    forall i, j | 0 <= i < j < |vs| ensures !PyEqual(vs[i], vs[j]) <==> KeyOf(vs[i]) != KeyOf(vs[j]) {
      KeysExact(vs[i], vs[j]);
    }
  }

  lemma {:induction false} DedupKeepsAll(vs: seq<Json>)
    ensures NoRepeats(Dedup(vs))
    ensures forall v :: v in Dedup(vs) ==> v in vs
    ensures forall v :: v in vs ==> Holds(Dedup(vs), v)
    ensures vs != [] ==> Dedup(vs) != []
  {
    if vs != [] {
      var p := vs[..|vs| - 1];
      DedupKeepsAll(p);
      NoRepeatsIff(Dedup(p));
      NoRepeatsIff(Dedup(vs));
      assert vs == p + [vs[|vs| - 1]];
      forall v | v in vs ensures Holds(Dedup(vs), v) {
        if v in p {
          var i :| 0 <= i < |Dedup(p)| && KeyOf(Dedup(p)[i]) == KeyOf(v);
          assert Dedup(vs)[i] == Dedup(p)[i];
        } else if !Holds(Dedup(p), v) {
          assert Dedup(vs)[|Dedup(vs)| - 1] == v;
        }
      }
    }
  }

  lemma {:induction false} DedupFixed(vs: seq<Json>)
    requires NoRepeats(vs)
    ensures Dedup(vs) == vs
  {
    if vs != [] {
      DedupFixed(vs[..|vs| - 1]);
      NoRepeatsIff(vs);
    }
  }

  // ---------------------------------------------------------------- normalisation

  function Normalize(node: Json): Json
    decreases node, 0
  {
    match node
    case Arr(items) => Arr(NormalizeAll(items))
    case Obj(fields) => Obj(Lift(fields, NormalizeFields(fields)))
    case _ => node
  }

  function NormalizeAll(items: seq<Json>): (r: seq<Json>)
    ensures |r| == |items|
    decreases items, 0
  {
    if items == [] then [] else [Normalize(items[0])] + NormalizeAll(items[1..])
  }

  function NormalizeFields(fields: Fields): (r: Fields)
    ensures |r| == |fields|
    decreases fields, 0
  {
    if fields == [] then [] else [Field(fields[0].key, Normalize(fields[0].value))] + NormalizeFields(fields[1..])
  }

  /** The dict under a key, or an empty one. */
  function DictAt(fields: Fields, key: string): Fields {
    match Find(fields, key)
    case Some(Obj(fs)) => fs
    case _ => []
  }

  function ListAt(fields: Fields, key: string): seq<Json> {
    match Find(fields, key)
    case Some(Arr(items)) => items
    case _ => []
  }

  /** The boolean `required` of a property in the original schema, if it has one. */
  function FlagOf(original: Fields, name: string): Option<bool> {
    match Find(DictAt(original, name), "required")
    case Some(Bool(b)) => Some(b)
    case _ => None
  }

  /** The normalised property schemas without the flags their originals carried. */
  function Unflag(original: Fields, properties: Fields): (r: Fields)
    ensures |r| == |properties|
  {
    if properties == [] then []
    else
      var Field(name, schema) := properties[0];
      var flag := FlagOf(original, name);
      var cleared :=
        if schema.Obj? && flag.Some? && Find(schema.fields, "required") == Some(Bool(flag.value))
        then Obj(Remove(schema.fields, "required"))
        else schema;
      [Field(name, cleared)] + Unflag(original, properties[1..])
  }

  /** The names of the properties flagged true, in order. */
  function Flagged(original: Fields, properties: Fields): seq<Json> {
    if properties == [] then []
    else
      (if properties[0].value.Obj? && FlagOf(original, properties[0].key) == Some(true)
       then [Str(properties[0].key)] else [])
      + Flagged(original, properties[1..])
  }

  /** One dict node, after its children: `fields` is the original, `normal` the copy. */
  function Lift(fields: Fields, normal: Fields): Fields {
    match Find(normal, "properties")
    case Some(Obj(properties)) =>
      var original := DictAt(fields, "properties");
      var required := ListAt(normal, "required") + Flagged(original, properties);
      var r := Put(normal, "properties", Obj(Unflag(original, properties)));
      if required != [] then Put(r, "required", Arr(Dedup(required)))
      else if Find(normal, "required").Some? && Find(normal, "required").value.Arr? then Remove(r, "required")
      else r
    case _ => normal
  }

  /** Python raises TypeError when a list it de-duplicates has an unhashable element. */
  predicate Raises(node: Json) {
    match node
    case Arr(items) => exists i :: 0 <= i < |items| && Raises(items[i])
    case Obj(fields) =>
      (exists i :: 0 <= i < |fields| && Raises(fields[i].value)) ||
      (Find(fields, "properties").Some? && Find(fields, "properties").value.Obj? &&
       exists i :: 0 <= i < |ListAt(fields, "required")| && !Hashable(ListAt(fields, "required")[i]))
    case _ => false
  }

  /** `_normalize_mcp_input_schema`; None stands for the TypeError. */
  function NormalizeMcpInputSchema(schema: Json): Option<Json> {
    if Raises(schema) then None else Some(Normalize(schema))
  }

  // ---------------------------------------------------------------- the children

  lemma {:induction false} NormalizeAllAt(items: seq<Json>, i: nat)
    requires i < |items|
    ensures NormalizeAll(items)[i] == Normalize(items[i])
  {
    if i > 0 {
      NormalizeAllAt(items[1..], i - 1);
    }
  }

  lemma {:induction false} NormalizeFieldsAt(fields: Fields, i: nat)
    requires i < |fields|
    ensures NormalizeFields(fields)[i] == Field(fields[i].key, Normalize(fields[i].value))
  {
    if i > 0 {
      NormalizeFieldsAt(fields[1..], i - 1);
    }
  }

  lemma {:induction false} NormalizeFieldsFind(fields: Fields, key: string)
    ensures Find(NormalizeFields(fields), key) ==
            match Find(fields, key) case Some(v) => Some(Normalize(v)) case None => None
  {
    if fields != [] && fields[0].key != key {
      NormalizeFieldsFind(fields[1..], key);
      assert NormalizeFields(fields)[1..] == NormalizeFields(fields[1..]);
    }
  }

  lemma NormalizeFieldsUnique(fields: Fields)
    requires UniqueKeys(fields)
    ensures UniqueKeys(NormalizeFields(fields))
  {
    forall i, j | 0 <= i < j < |fields| ensures NormalizeFields(fields)[i].key != NormalizeFields(fields)[j].key {
      NormalizeFieldsAt(fields, i);
      NormalizeFieldsAt(fields, j);
    }
  }

  lemma {:induction false} UnflagAt(original: Fields, properties: Fields, i: nat)
    requires i < |properties|
    ensures var Field(name, schema) := properties[i];
            var flag := FlagOf(original, name);
            Unflag(original, properties)[i] == Field(name,
              if schema.Obj? && flag.Some? && Find(schema.fields, "required") == Some(Bool(flag.value))
              then Obj(Remove(schema.fields, "required"))
              else schema)
  {
    if i > 0 {
      UnflagAt(original, properties[1..], i - 1);
    }
  }

  // ---------------------------------------------------------------- normal forms

  /** No property schema of the dict is flagged with a boolean. */
  ghost predicate Unflagged(properties: Fields) {
    forall i :: 0 <= i < |properties| && properties[i].value.Obj? ==>
      var r := Find(properties[i].value.fields, "required"); r.Some? ==> !r.value.Bool?
  }

  ghost predicate AllHashable(vs: seq<Json>) {
    forall i :: 0 <= i < |vs| ==> !vs[i].Arr? && !vs[i].Obj?
  }

  /** The shape of one dict node after normalisation. */
  ghost predicate NormalNode(fields: Fields) {
    Find(fields, "properties").Some? && Find(fields, "properties").value.Obj? ==>
      Unflagged(DictAt(fields, "properties")) &&
      (Find(fields, "required").Some? && Find(fields, "required").value.Arr? ==>
         ListAt(fields, "required") != [] && NoRepeats(ListAt(fields, "required")) &&
             AllHashable(ListAt(fields, "required")))
  }

  /** ... at every depth. */
  ghost predicate Normal(node: Json) {
    match node
    case Arr(items) => forall i :: 0 <= i < |items| ==> Normal(items[i])
    case Obj(fields) => NormalNode(fields) && forall i :: 0 <= i < |fields| ==> Normal(fields[i].value)
    case _ => true
  }

  lemma PutGood(fs: Fields, key: string, value: Json)
    requires WellFormedFields(fs) && WellFormed(value)
    requires Normal(value) && forall i :: 0 <= i < |fs| ==> Normal(fs[i].value)
    ensures var r := Put(fs, key, value); WellFormedFields(r) && forall i :: 0 <= i < |r| ==> Normal(r[i].value)
  {
    PutUnique(fs, key, value);
    PutEntries(fs, key, value);
    var r := Put(fs, key, value);
    forall i | 0 <= i < |r| ensures WellFormed(r[i].value) && Normal(r[i].value) {
      assert r[i] in r;
      if r[i] in fs {
        var j :| 0 <= j < |fs| && fs[j] == r[i];
      }
    }
  }

  lemma RemoveGood(fs: Fields, key: string)
    requires WellFormedFields(fs) && forall i :: 0 <= i < |fs| ==> Normal(fs[i].value)
    ensures var r := Remove(fs, key); WellFormedFields(r) && forall i :: 0 <= i < |r| ==> Normal(r[i].value)
  {
    RemoveEntries(fs, key);
    var r := Remove(fs, key);
    forall i | 0 <= i < |r| ensures WellFormed(r[i].value) && Normal(r[i].value) {
      assert r[i] in r;
      var j :| 0 <= j < |fs| && fs[j] == r[i];
    }
  }

  /** Dropping a boolean `required` keeps a schema normal. */
  lemma UnflaggedSchemaNormal(schema: Fields)
    requires WellFormedFields(schema) && Normal(Obj(schema))
    ensures WellFormedFields(Remove(schema, "required")) && Normal(Obj(Remove(schema, "required")))
  {
    RemoveGood(schema, "required");
    RemoveFind(schema, "required", "required");
    RemoveFind(schema, "required", "properties");
  }

  lemma UnflaggedSubset(a: Fields, b: Fields)
    requires Unflagged(b) && forall f :: f in a ==> f in b
    ensures Unflagged(a)
  {
    forall i | 0 <= i < |a| && a[i].value.Obj?
      ensures var r := Find(a[i].value.fields, "required"); r.Some? ==> !r.value.Bool?
    {
      assert a[i] in b;
    }
  }

  lemma UnflagValuesGood(original: Fields, properties: Fields)
    requires WellFormedFields(properties) && forall i :: 0 <= i < |properties| ==> Normal(properties[i].value)
    ensures WellFormedFields(Unflag(original, properties))
    ensures forall i :: 0 <= i < |Unflag(original, properties)| ==> Normal(Unflag(original, properties)[i].value)
  {
    var r := Unflag(original, properties);
    forall i | 0 <= i < |r|
      ensures r[i].key == properties[i].key && WellFormed(r[i].value) && Normal(r[i].value)
    {
      UnflagAt(original, properties, i);
      assert WellFormed(properties[i].value) && Normal(properties[i].value);
      if properties[i].value.Obj? {
        UnflaggedSchemaNormal(properties[i].value.fields);
      }
    }
  }

  lemma UnflagNodeGood(original: Fields, properties: Fields)
    requires NormalNode(properties)
    ensures NormalNode(Unflag(original, properties))
  {
    var r := Unflag(original, properties);
    UnflagFind(original, properties, "properties");
    UnflagFind(original, properties, "required");
    if Find(r, "properties").Some? && Find(r, "properties").value.Obj? {
      RemoveEntries(DictAt(properties, "properties"), "required");
      UnflaggedSubset(DictAt(r, "properties"), DictAt(properties, "properties"));
    }
  }

  lemma {:induction false} UnflagFind(original: Fields, properties: Fields, name: string)
    ensures var flag := FlagOf(original, name);
            Find(Unflag(original, properties), name) ==
              match Find(properties, name)
              case Some(Obj(fs)) =>
                Some(Obj(if flag.Some? && Find(fs, "required") == Some(Bool(flag.value)) then Remove(fs, "required")
                         else fs))
              case other => other
  {
    if properties != [] && properties[0].key != name {
      UnflagFind(original, properties[1..], name);
      assert Unflag(original, properties)[1..] == Unflag(original, properties[1..]);
    }
  }

  /** The lifted node's `required`. */
  ghost function LiftedRequired(original: Fields, properties: Fields, normal: Fields): Option<Json> {
    var required := ListAt(normal, "required") + Flagged(original, properties);
    var before := Find(normal, "required");
    if required != [] then Some(Arr(Dedup(required)))
    else if before.Some? && before.value.Arr? then None
    else before
  }

  /** What the lifted node holds under each key. */
  lemma LiftFinds(fields: Fields, normal: Fields, properties: Fields, key: string)
    requires UniqueKeys(normal) && Find(normal, "properties") == Some(Obj(properties))
    ensures var original, r := DictAt(fields, "properties"), Lift(fields, normal);
            Find(r, "properties") == Some(Obj(Unflag(original, properties))) &&
            Find(r, "required") == LiftedRequired(original, properties, normal) &&
            (key != "properties" && key != "required" ==> Find(r, key) == Find(normal, key))
  {
    var original := DictAt(fields, "properties");
    var unflagged := Obj(Unflag(original, properties));
    var names := Arr(Dedup(ListAt(normal, "required") + Flagged(original, properties)));
    PutTwiceFind(normal, unflagged, names, "properties");
    PutTwiceFind(normal, unflagged, names, "required");
    PutTwiceFind(normal, unflagged, names, key);
  }

  lemma PutTwiceFind(normal: Fields, unflagged: Json, names: Json, k: string)
    requires UniqueKeys(normal)
    ensures var put := Put(normal, "properties", unflagged);
            var found := if k == "properties" then Some(unflagged) else Find(normal, k);
            && UniqueKeys(put) && Find(put, k) == found
            && Find(Put(put, "required", names), k) == (if k == "required" then Some(names) else found)
            && Find(Remove(put, "required"), k) == (if k == "required" then None else found)
  {
    var put := Put(normal, "properties", unflagged);
    PutUnique(normal, "properties", unflagged);
    PutFind(normal, "properties", unflagged, k);
    PutFind(put, "required", names, k);
    RemoveFind(put, "required", k);
  }

  /** A boolean `required` survives the normalisation of its own node only if it was there. */
  lemma BooleanSurvives(fields: Fields, b: bool)
    requires UniqueKeys(fields)
    requires Find(Lift(fields, NormalizeFields(fields)), "required") == Some(Bool(b))
    ensures Find(fields, "required") == Some(Bool(b))
  {
    var normal := NormalizeFields(fields);
    NormalizeFieldsFind(fields, "required");
    NormalizeFieldsUnique(fields);
    if Find(normal, "properties").Some? && Find(normal, "properties").value.Obj? {
      LiftFinds(fields, normal, Find(normal, "properties").value.fields, "required");
    }
  }

  /** The children of a node normalise to normal values with the same keys. */
  lemma FieldsGood(fields: Fields)
    requires WellFormedFields(fields)
    requires forall i :: 0 <= i < |fields| ==>
               WellFormed(Normalize(fields[i].value)) && Normal(Normalize(fields[i].value))
    ensures var n := NormalizeFields(fields); WellFormedFields(n) && forall i :: 0 <= i < |n| ==> Normal(n[i].value)
  {
    NormalizeFieldsUnique(fields);
    forall i | 0 <= i < |fields| ensures NormalizeFields(fields)[i].value == Normalize(fields[i].value) {
      NormalizeFieldsAt(fields, i);
    }
  }

  /** The properties dict after normalising it as a node of its own. */
  ghost function NormalizedProperties(original: Fields): Fields {
    Lift(original, NormalizeFields(original))
  }

  /** A boolean `required` on a normalised property schema was already on the original, also
      when the property is itself called "properties" and so was unflagged as a dict. */
  lemma FlagPersists(original: Fields, name: string, schema: Fields, b: bool)
    requires WellFormedFields(original)
    requires Find(NormalizedProperties(original), name) == Some(Obj(schema)) &&
             Find(schema, "required") == Some(Bool(b))
    ensures FlagOf(original, name) == Some(b)
  {
    var inner := InnerSchema(original, name, schema, b);
    NormalizeFieldsFind(original, name);
    var i := FindMember(original, name);
    assert WellFormed(original[i].value);
    BooleanSurvives(original[i].value.fields, b);
  }

  lemma InnerSchema(original: Fields, name: string, schema: Fields, b: bool) returns (inner: Fields)
    requires UniqueKeys(original)
    requires Find(NormalizedProperties(original), name) == Some(Obj(schema)) &&
             Find(schema, "required") == Some(Bool(b))
    ensures Find(NormalizeFields(original), name) == Some(Obj(inner)) && Find(inner, "required") == Some(Bool(b))
  {
    var normal := NormalizeFields(original);
    NormalizeFieldsUnique(original);
    if Find(normal, "properties").Some? && Find(normal, "properties").value.Obj? {
      var properties := Find(normal, "properties").value.fields;
      LiftFinds(original, normal, properties, name);
      UnflagFind(DictAt(original, "properties"), properties, "required");
    }
    inner := Find(normal, name).value.fields;
  }

  /** After the lift no property schema carries a boolean `required`. */
  lemma LiftUnflags(original: Fields)
    requires WellFormedFields(original) && WellFormedFields(NormalizedProperties(original))
    ensures Unflagged(Unflag(original, NormalizedProperties(original)))
  {
    var properties := NormalizedProperties(original);
    var r := Unflag(original, properties);
    forall i | 0 <= i < |r| && r[i].value.Obj?
      ensures var f := Find(r[i].value.fields, "required"); f.Some? ==> !f.value.Bool?
    {
      UnflagAt(original, properties, i);
      FindAt(properties, i);
      assert WellFormed(properties[i].value);
      var schema := properties[i].value.fields;
      RemoveFind(schema, "required", "required");
      if Find(schema, "required").Some? && Find(schema, "required").value.Bool? {
        FlagPersists(original, properties[i].key, schema, Find(schema, "required").value.b);
      }
    }
  }

  lemma DedupGood(required: seq<Json>)
    requires forall v :: v in required ==> WellFormed(v) && Normal(v)
    ensures WellFormed(Arr(Dedup(required))) && Normal(Arr(Dedup(required)))
  {
    DedupKeepsAll(required);
  }

  lemma {:induction false} FlaggedAreNames(original: Fields, properties: Fields)
    ensures forall v :: v in Flagged(original, properties) ==> v.Str?
  {
    if properties != [] {
      FlaggedAreNames(original, properties[1..]);
    }
  }

  lemma LiftGood(fields: Fields)
    requires WellFormedFields(fields)
    requires var n := NormalizeFields(fields); WellFormedFields(n) && forall i :: 0 <= i < |n| ==> Normal(n[i].value)
    requires Find(fields, "properties").Some? && Find(fields, "properties").value.Obj?
         ==> AllHashable(ListAt(fields, "required"))
    ensures var r := Lift(fields, NormalizeFields(fields)); WellFormedFields(r) && Normal(Obj(r))
  {
    var n := NormalizeFields(fields);
    if Find(n, "properties").Some? && Find(n, "properties").value.Obj? {
      NormalizeFieldsFind(fields, "properties");
      var j := FindMember(n, "properties");
      assert WellFormed(n[j].value) && Normal(n[j].value);
      var original := DictAt(fields, "properties");
      var k := FindMember(fields, "properties");
      assert WellFormed(fields[k].value) && n[j].value == Obj(NormalizedProperties(original));
      LiftValuesGood(fields, n, original);
      LiftUnflags(original);
      NormalizeFieldsFind(fields, "required");
      AllHashableNormalized(ListAt(fields, "required"));
      LiftNodeGood(fields, n);
    }
  }

  lemma {:induction false} AllHashableNormalized(items: seq<Json>)
    requires AllHashable(items)
    ensures NormalizeAll(items) == items
  {
    if items != [] {
      assert Hashable(items[0]);
      AllHashableNormalized(items[1..]);
    }
  }

  lemma LiftValuesGood(fields: Fields, n: Fields, original: Fields)
    requires WellFormedFields(n) && forall i :: 0 <= i < |n| ==> Normal(n[i].value)
    requires original == DictAt(fields, "properties") &&
             Find(n, "properties") == Some(Obj(NormalizedProperties(original)))
    requires WellFormedFields(NormalizedProperties(original)) && Normal(Obj(NormalizedProperties(original)))
    ensures var r := Lift(fields, n); WellFormedFields(r) && forall i :: 0 <= i < |r| ==> Normal(r[i].value)
  {
    var properties := NormalizedProperties(original);
    UnflagValuesGood(original, properties);
    UnflagNodeGood(original, properties);
    var unflagged := Obj(Unflag(original, properties));
    PutGood(n, "properties", unflagged);
    var put := Put(n, "properties", unflagged);
    RequiredGood(n, original, properties);
    PutGood(put, "required", Arr(Dedup(ListAt(n, "required") + Flagged(original, properties))));
    RemoveGood(put, "required");
  }

  lemma LiftNodeGood(fields: Fields, n: Fields)
    requires UniqueKeys(n) && Find(n, "properties").Some? && Find(n, "properties").value.Obj?
    requires Unflagged(Unflag(DictAt(fields, "properties"), DictAt(n, "properties"))) &&
             AllHashable(ListAt(n, "required"))
    ensures NormalNode(Lift(fields, n))
  {
    LiftFinds(fields, n, DictAt(n, "properties"), "required");
    var required := ListAt(n, "required") + Flagged(DictAt(fields, "properties"), DictAt(n, "properties"));
    FlaggedAreNames(DictAt(fields, "properties"), DictAt(n, "properties"));
    DedupKeepsAll(required);
    forall i | 0 <= i < |Dedup(required)| ensures Hashable(Dedup(required)[i]) {
      assert Dedup(required)[i] in required;
    }
  }

  lemma RequiredGood(n: Fields, original: Fields, properties: Fields)
    requires WellFormedFields(n) && forall i :: 0 <= i < |n| ==> Normal(n[i].value)
    ensures var required := ListAt(n, "required") + Flagged(original, properties);
            WellFormed(Arr(Dedup(required))) && Normal(Arr(Dedup(required)))
  {
    var listed := ListAt(n, "required");
    FlaggedAreNames(original, properties);
    forall v | v in listed + Flagged(original, properties) ensures WellFormed(v) && Normal(v) {
      if v in listed {
        var i := FindMember(n, "required");
        assert WellFormed(n[i].value) && Normal(n[i].value);
        var j :| 0 <= j < |listed| && listed[j] == v;
      }
    }
    DedupGood(listed + Flagged(original, properties));
  }

  /** Shape: at every depth of the result no property schema keeps a boolean `required`, and
      every `required` list beside a properties dict is non-empty and free of repeats. */
  lemma {:induction false} NormalizeIsNormal(node: Json)
    requires WellFormed(node) && !Raises(node)
    ensures WellFormed(Normalize(node)) && Normal(Normalize(node))
    decreases node
  {
    match node
    case Arr(items) =>
      forall i | 0 <= i < |items| ensures WellFormed(NormalizeAll(items)[i]) && Normal(NormalizeAll(items)[i]) {
        NormalizeAllAt(items, i);
        NormalizeIsNormal(items[i]);
      }
    case Obj(fields) =>
      forall i | 0 <= i < |fields|
          ensures WellFormed(Normalize(fields[i].value)) && Normal(Normalize(fields[i].value)) {
        NormalizeIsNormal(fields[i].value);
      }
      FieldsGood(fields);
      LiftGood(fields);
    case _ =>
  }

  // ---------------------------------------------------------------- normal schemas are fixed points

  lemma {:induction false} NothingToLift(original: Fields, properties: Fields)
    requires forall i :: 0 <= i < |properties| && properties[i].value.Obj? ==>
               FlagOf(original, properties[i].key) == None
    ensures Flagged(original, properties) == [] && Unflag(original, properties) == properties
  {
    if properties != [] {
      forall i | 0 <= i < |properties[1..]| && properties[1..][i].value.Obj?
        ensures FlagOf(original, properties[1..][i].key) == None
      {
        assert properties[1..][i] == properties[i + 1];
      }
      NothingToLift(original, properties[1..]);
    }
  }

  lemma LiftFixed(fields: Fields)
    requires WellFormedFields(fields) && NormalNode(fields)
    ensures Lift(fields, fields) == fields
  {
    if Find(fields, "properties").Some? && Find(fields, "properties").value.Obj? {
      var properties := DictAt(fields, "properties");
      var k := FindMember(fields, "properties");
      assert WellFormed(fields[k].value);
      forall i | 0 <= i < |properties| && properties[i].value.Obj?
        ensures FlagOf(properties, properties[i].key) == None
      {
        FindAt(properties, i);
      }
      NothingToLift(properties, properties);
      PutSame(fields, "properties");
      var listed := ListAt(fields, "required");
      assert listed + [] == listed;
      if listed != [] {
        DedupFixed(listed);
        PutSame(fields, "required");
      }
    }
  }

  lemma {:induction false} NormalIsFixed(node: Json)
    requires WellFormed(node) && Normal(node)
    ensures Normalize(node) == node
    decreases node
  {
    match node
    case Arr(items) =>
      forall i | 0 <= i < |items| ensures NormalizeAll(items)[i] == items[i] {
        NormalizeAllAt(items, i);
        NormalIsFixed(items[i]);
      }
    case Obj(fields) =>
      forall i | 0 <= i < |fields| ensures NormalizeFields(fields)[i] == fields[i] {
        NormalizeFieldsAt(fields, i);
        NormalIsFixed(fields[i].value);
      }
      assert NormalizeFields(fields) == fields;
      LiftFixed(fields);
    case _ =>
  }

  lemma {:induction false} NormalNeverRaises(node: Json)
    requires Normal(node)
    ensures !Raises(node)
    decreases node
  {
    match node
    case Arr(items) =>
      forall i | 0 <= i < |items| ensures !Raises(items[i]) {
        NormalNeverRaises(items[i]);
      }
    case Obj(fields) =>
      forall i | 0 <= i < |fields| ensures !Raises(fields[i].value) {
        NormalNeverRaises(fields[i].value);
      }
    case _ =>
  }

  /** Whatever is normalised is in normal form, and normalising it again changes nothing. */
  lemma NormalizeIdempotent(schema: Json)
    requires WellFormed(schema)
    ensures var once := NormalizeMcpInputSchema(schema);
            once.Some? ==> Normal(once.value) && NormalizeMcpInputSchema(once.value) == once
  {
    if !Raises(schema) {
      NormalizeIsNormal(schema);
      NormalIsFixed(Normalize(schema));
      NormalNeverRaises(Normalize(schema));
    }
  }

  // ---------------------------------------------------------------- what gets listed

  lemma DedupHolds(vs: seq<Json>, v: Json)
    ensures Holds(Dedup(vs), v) <==> Holds(vs, v)
  {
    DedupKeepsAll(vs);
    if Holds(Dedup(vs), v) {
      var i :| 0 <= i < |Dedup(vs)| && KeyOf(Dedup(vs)[i]) == KeyOf(v);
      assert Dedup(vs)[i] in vs;
      var j :| 0 <= j < |vs| && vs[j] == Dedup(vs)[i];
    }
    if Holds(vs, v) {
      var i :| 0 <= i < |vs| && KeyOf(vs[i]) == KeyOf(v);
      assert vs[i] in vs;
      var j :| 0 <= j < |Dedup(vs)| && KeyOf(Dedup(vs)[j]) == KeyOf(vs[i]);
    }
  }

  lemma HoldsConcat(a: seq<Json>, b: seq<Json>, v: Json)
    ensures Holds(a + b, v) <==> Holds(a, v) || Holds(b, v)
  {
    if Holds(a, v) {
      var i :| 0 <= i < |a| && KeyOf(a[i]) == KeyOf(v);
      assert (a + b)[i] == a[i];
    }
    if Holds(b, v) {
      var i :| 0 <= i < |b| && KeyOf(b[i]) == KeyOf(v);
      assert (a + b)[|a| + i] == b[i];
    }
  }

  lemma {:induction false} FlaggedHolds(original: Fields, properties: Fields, name: string)
    requires UniqueKeys(properties)
    ensures Holds(Flagged(original, properties), Str(name)) <==>
            Find(properties, name).Some? && Find(properties, name).value.Obj? && FlagOf(original, name) == Some(true)
  {
    if properties != [] {
      FlaggedHolds(original, properties[1..], name);
      var lifted := properties[0].value.Obj? && FlagOf(original, properties[0].key) == Some(true);
      var first := if lifted then [Str(properties[0].key)] else [];
      HoldsConcat(first, Flagged(original, properties[1..]), Str(name));
      assert first != [] ==> first[0] == Str(properties[0].key);
      if properties[0].key == name {
        forall i | 0 <= i < |properties[1..]| ensures properties[1..][i].key != name {
          assert properties[1..][i] == properties[i + 1];
        }
        FindHas(properties[1..], name);
      }
    }
  }

  /** A property called "required" whose schema is replaced by a list, because the properties
      dict itself, read as a node, has a "properties" dict of which something is lifted. */
  ghost predicate Shadowed(properties: Fields)
    decreases properties, 0
  {
    && Find(properties, "required").Some? && Find(properties, "required").value.Obj?
    && exists j :: 0 <= j < |properties| && properties[j].key == "properties" && properties[j].value.Obj?
                   && SomeLifted(properties[j].value.fields)
  }

  /** Some property is flagged true and not itself shadowed. */
  ghost predicate SomeLifted(properties: Fields)
    decreases properties, 2
  {
    exists i :: 0 <= i < |properties| && IsLifted(properties, properties[i].key)
  }

  ghost predicate IsLifted(properties: Fields, name: string)
    decreases properties, 1
  {
    FlagOf(properties, name) == Some(true) && !(name == "required" && Shadowed(properties))
  }

  /** The same in terms of what the normaliser lifts. */
  ghost predicate Overwritten(properties: Fields) {
    Find(properties, "required").Some? && Find(properties, "required").value.Obj? &&
    Find(properties, "properties").Some? && Find(properties, "properties").value.Obj? &&
    var inner := DictAt(properties, "properties");
    Flagged(inner, NormalizedProperties(inner)) != []
  }

  /** Being a dict survives normalisation, but for a shadowed property. */
  lemma StaysDict(properties: Fields, name: string)
    requires UniqueKeys(properties) && Find(properties, name).Some? && Find(properties, name).value.Obj?
    ensures var found := Find(NormalizedProperties(properties), name);
            if name == "required" && Overwritten(properties) then found.Some? && found.value.Arr?
            else found.Some? && found.value.Obj?
  {
    var normal := NormalizeFields(properties);
    NormalizeFieldsUnique(properties);
    NormalizeFieldsFind(properties, name);
    NormalizeFieldsFind(properties, "properties");
    if Find(normal, "properties").Some? && Find(normal, "properties").value.Obj? {
      LiftFinds(properties, normal, Find(normal, "properties").value.fields, name);
      if name == "required" {
        assert ListAt(normal, "required") == [];
      }
    }
  }

  lemma ListedIs(fields: Fields, properties: Fields)
    requires WellFormedFields(fields) && !Raises(Obj(fields)) && Find(fields, "properties") == Some(Obj(properties))
    ensures ListAt(Normalize(Obj(fields)).fields, "required")
         == Dedup(ListAt(fields, "required") + Flagged(properties, NormalizedProperties(properties)))
  {
    var normal, normalized := NormalizeFields(fields), NormalizedProperties(properties);
    NormalizeFieldsUnique(fields);
    NormalizeFieldsFind(fields, "properties");
    NormalizeFieldsFind(fields, "required");
    AllHashableNormalized(ListAt(fields, "required"));
    LiftFinds(fields, normal, normalized, "required");
  }

  /** The new list of an object node: its old entries and exactly the properties originally
      flagged true, each once; a shadowed property is the one exception. */
  lemma ListedExactly(fields: Fields, properties: Fields, name: string)
    requires WellFormedFields(fields) && !Raises(Obj(fields)) && Find(fields, "properties") == Some(Obj(properties))
    ensures var r := Normalize(Obj(fields)).fields;
            var listed := ListAt(r, "required");
            NoRepeats(listed) &&
            (Holds(listed, Str(name)) <==>
               Holds(ListAt(fields, "required"), Str(name)) ||
               IsLifted(properties, name))
  {
    var given, flagged := ListAt(fields, "required"), Flagged(properties, NormalizedProperties(properties));
    ListedIs(fields, properties);
    DedupKeepsAll(given + flagged);
    DedupHolds(given + flagged, Str(name));
    HoldsConcat(given, flagged, Str(name));
    var k := FindMember(fields, "properties");
    assert WellFormed(fields[k].value) && !Raises(fields[k].value);
    FlaggedExactly(properties, name);
  }

  lemma {:induction false} FlaggedExactly(properties: Fields, name: string)
    requires WellFormedFields(properties) && !Raises(Obj(properties))
    ensures Holds(Flagged(properties, NormalizedProperties(properties)), Str(name)) <==> IsLifted(properties, name)
    decreases properties, 1
  {
    NormalizeIsNormal(Obj(properties));
    FlaggedHolds(properties, NormalizedProperties(properties), name);
    if FlagOf(properties, name) == Some(true) {
      StaysDict(properties, name);
      ShadowedIff(properties);
    }
  }

  lemma {:induction false} ShadowedIff(properties: Fields)
    requires WellFormedFields(properties) && !Raises(Obj(properties))
    ensures Shadowed(properties) <==> Overwritten(properties)
    decreases properties, 0
  {
    if Find(properties, "properties").Some? && Find(properties, "properties").value.Obj? {
      var j := FindMember(properties, "properties");
      assert WellFormed(properties[j].value) && !Raises(properties[j].value);
      LiftedIff(properties[j].value.fields);
      forall k | 0 <= k < |properties| && properties[k].key == "properties" ensures k == j {
      }
    } else {
      forall k | 0 <= k < |properties| && properties[k].key == "properties" ensures !properties[k].value.Obj? {
        FindAt(properties, k);
      }
    }
  }

  lemma {:induction false} LiftedIff(properties: Fields)
    requires WellFormedFields(properties) && !Raises(Obj(properties))
    ensures SomeLifted(properties) <==> Flagged(properties, NormalizedProperties(properties)) != []
    decreases properties, 2
  {
    var flagged := Flagged(properties, NormalizedProperties(properties));
    if SomeLifted(properties) {
      var i :| 0 <= i < |properties| && IsLifted(properties, properties[i].key);
      FlaggedExactly(properties, properties[i].key);
    }
    if flagged != [] {
      FlaggedAreNames(properties, NormalizedProperties(properties));
      var name := flagged[0].s;
      assert Holds(flagged, Str(name));
      FlaggedExactly(properties, name);
      FindHas(properties, name);
      var i :| 0 <= i < |properties| && properties[i].key == name;
      assert IsLifted(properties, properties[i].key);
    }
  }

  /** A shadowed property: an object with members "properties" and "required", both flagged.  The
      flag of "required" is then lost. */
  lemma ShadowedExample()
    ensures var flagged := Obj([Field("required", Bool(true))]);
            var properties := [Field("properties", Obj([Field("a", flagged)])), Field("required", flagged)];
            var schema := [Field("properties", Obj(properties))];
            && FlagOf(properties, "required") == Some(true) && Shadowed(properties)
            && WellFormedFields(schema) && !Raises(Obj(schema))
            && !Holds(ListAt(Normalize(Obj(schema)).fields, "required"), Str("required"))
  {
    var flagged := Obj([Field("required", Bool(true))]);
    var inner := [Field("a", flagged)];
    var properties := [Field("properties", Obj(inner)), Field("required", flagged)];
    assert properties[1..] == [Field("required", flagged)];
    assert Find(properties, "required") == Some(flagged);
    assert FlagOf(inner, "a") == Some(true) by {
      assert Find(flagged.fields, "required") == Some(Bool(true));
    }
    assert IsLifted(inner, inner[0].key);
    assert properties[0].value.fields == inner;
    var schema := [Field("properties", Obj(properties))];
    assert schema[1..] == [];
    assert Find(schema, "required") == None;
    assert !Raises(flagged) && !Raises(Obj(inner)) && !Raises(Obj(properties)) && !Raises(Obj(schema));
    assert WellFormed(flagged) && WellFormed(Obj(inner)) && WellFormed(Obj(properties));
    ShadowedIsMissing(schema, properties);
  }

  /** Wherever that happens, "required" is missing from the list unless it was there before. */
  lemma ShadowedIsMissing(fields: Fields, properties: Fields)
    requires WellFormedFields(fields) && !Raises(Obj(fields)) && Find(fields, "properties") == Some(Obj(properties))
    requires Shadowed(properties) && !Holds(ListAt(fields, "required"), Str("required"))
    ensures !Holds(ListAt(Normalize(Obj(fields)).fields, "required"), Str("required"))
  {
    ListedExactly(fields, properties, "required");
  }

  /** What else there is in a node is only normalised in place. */
  lemma OtherKeysUntouched(fields: Fields, key: string)
    requires WellFormedFields(fields) && key != "properties" && key != "required"
    ensures Find(Normalize(Obj(fields)).fields, key) ==
            match Find(fields, key) case Some(v) => Some(Normalize(v)) case None => None
  {
    var normal := NormalizeFields(fields);
    NormalizeFieldsUnique(fields);
    NormalizeFieldsFind(fields, key);
    if Find(normal, "properties").Some? && Find(normal, "properties").value.Obj? {
      LiftFinds(fields, normal, Find(normal, "properties").value.fields, key);
    }
  }

  /** A property schema after normalisation: what it is normalised to by itself, without a boolean
      `required`. */
  ghost predicate IsUnflagged(n: Json, after: Json) {
    if !n.Obj? then after == n
    else
      && after.Obj?
      && (forall k :: k != "required" ==> Find(after.fields, k) == Find(n.fields, k))
      && Find(after.fields, "required") ==
           if Find(n.fields, "required").Some? && Find(n.fields, "required").value.Bool? then None
           else Find(n.fields, "required")
  }

  /** The properties of an object node stay, each normalised and without its flag; "properties" and
      "required" among their names are what the dict itself is normalised by. */
  lemma PropertiesExact(fields: Fields, properties: Fields, name: string)
    requires WellFormedFields(fields) && !Raises(Obj(fields)) && Find(fields, "properties") == Some(Obj(properties))
    requires name != "properties" && name != "required"
    ensures var after := Find(Normalize(Obj(fields)).fields, "properties");
            && after.Some? && after.value.Obj?
            && match Find(properties, name)
               case None => Find(after.value.fields, name) == None
               case Some(v) =>
                 Find(after.value.fields, name).Some? && IsUnflagged(Normalize(v), Find(after.value.fields, name).value)
  {
    var normal, normalized := NormalizeFields(fields), NormalizedProperties(properties);
    NormalizeFieldsUnique(fields);
    NormalizeFieldsFind(fields, "properties");
    LiftFinds(fields, normal, normalized, "properties");
    var k := FindMember(fields, "properties");
    assert WellFormed(fields[k].value) && !Raises(fields[k].value);
    OtherKeysUntouched(properties, name);
    UnflagFind(properties, normalized, name);
    var found := Find(normalized, name);
    if found.Some? && found.value.Obj? {
      NormalizeIsNormal(Obj(properties));
      UnflaggedSchema(properties, name, found.value.fields);
    }
  }

  lemma UnflaggedSchema(properties: Fields, name: string, schema: Fields)
    requires WellFormedFields(properties) && WellFormedFields(NormalizedProperties(properties))
    requires Find(NormalizedProperties(properties), name) == Some(Obj(schema))
    ensures var flag := FlagOf(properties, name);
            IsUnflagged(Obj(schema), Obj(if flag.Some? && Find(schema, "required") == Some(Bool(flag.value))
                                         then Remove(schema, "required") else schema))
  {
    var i := FindMember(NormalizedProperties(properties), name);
    assert WellFormed(NormalizedProperties(properties)[i].value);
    if Find(schema, "required").Some? && Find(schema, "required").value.Bool? {
      FlagPersists(properties, name, schema, Find(schema, "required").value.b);
    }
    forall k ensures Find(Remove(schema, "required"), k) == if k == "required" then None else Find(schema, k) {
      RemoveFind(schema, "required", k);
    }
  }

  /** Besides names the list keeps exactly its old entries. */
  lemma ListedNothingElse(fields: Fields, properties: Fields, v: Json)
    requires WellFormedFields(fields) && !Raises(Obj(fields)) && Find(fields, "properties") == Some(Obj(properties))
    requires !v.Str?
    ensures Holds(ListAt(Normalize(Obj(fields)).fields, "required"), v) <==> Holds(ListAt(fields, "required"), v)
  {
    var given, flagged := ListAt(fields, "required"), Flagged(properties, NormalizedProperties(properties));
    ListedIs(fields, properties);
    DedupHolds(given + flagged, v);
    HoldsConcat(given, flagged, v);
    FlaggedAreNames(properties, NormalizedProperties(properties));
    assert forall i :: 0 <= i < |flagged| ==> flagged[i].Str?;
  }

  /** Lists, scalars and dicts without a "properties" dict are only normalised inside. */
  lemma InPlace(node: Json)
    ensures match node
            case Arr(items) =>
              Normalize(node).Arr? && |Normalize(node).items| == |items| &&
              forall i :: 0 <= i < |items| ==> Normalize(node).items[i] == Normalize(items[i])
            case Obj(fs) =>
              !(Find(fs, "properties").Some? && Find(fs, "properties").value.Obj?) ==>
                Normalize(node).Obj? && |Normalize(node).fields| == |fs| &&
                forall i :: 0 <= i < |fs| ==>
                  Normalize(node).fields[i] == Field(fs[i].key, Normalize(fs[i].value))
            case _ => Normalize(node) == node
  {
    match node
    case Arr(items) =>
      forall i | 0 <= i < |items| ensures NormalizeAll(items)[i] == Normalize(items[i]) {
        NormalizeAllAt(items, i);
      }
    case Obj(fs) =>
      NormalizeFieldsFind(fs, "properties");
      forall i | 0 <= i < |fs| ensures NormalizeFields(fs)[i] == Field(fs[i].key, Normalize(fs[i].value)) {
        NormalizeFieldsAt(fs, i);
      }
    case _ =>
  }
}

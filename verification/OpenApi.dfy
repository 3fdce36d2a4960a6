/** Pruning an OpenAPI document to its public operations and the components they reach. */
module OpenApi {
  import opened Text
  import opened Json

  const PREFIX := "#/components/"
  const PUBLIC_TAGS := {"Open API", "System Config", "Config Profiles", "Bot Config Routes", "Bots", "Provider Sources",
                        "Providers", "Chat", "IM", "Files", "Plugins", "Plugin Sources", "Plugin Pages", "MCP",
                        "Skills", "Personas", "T2I", "Subagents"}
  const EXCLUDED_PATHS := {"/api/v1/live-chat/ws", "/api/v1/unified-chat/ws"}

  // ---------------------------------------------------------------- references

  function IterRefs(v: Json): seq<string>
    decreases v, 0
  {
    match v
    case Obj(fs) =>
      (match Find(fs, "$ref") case Some(Str(s)) => if PREFIX <= s then [s] else [] case _ => []) + RefsInFields(fs)
    case Arr(items) => RefsInItems(items)
    case _ => []
  }

  function RefsInFields(fs: Fields): seq<string>
    decreases fs, 0
  {
    if fs == [] then [] else IterRefs(fs[0].value) + RefsInFields(fs[1..])
  }

  function RefsInItems(items: seq<Json>): seq<string>
    decreases items, 0
  {
    if items == [] then [] else IterRefs(items[0]) + RefsInItems(items[1..])
  }

  /** A component by section and name. */
  datatype Ref = Ref(section: string, name: string)

  /** The position of the first '/'. */
  function Slash(s: string): nat {
    if s == [] || s[0] == '/' then 0 else 1 + Slash(s[1..])
  }

  lemma {:induction false} SlashIsFirst(s: string)
    ensures Slash(s) <= |s| && (Slash(s) < |s| ==> s[Slash(s)] == '/')
    ensures forall i :: 0 <= i < Slash(s) ==> s[i] != '/'
  {
    if s != [] && s[0] != '/' {
      SlashIsFirst(s[1..]);
      forall i | 0 <= i < Slash(s) ensures s[i] != '/' {
        assert i == 0 || s[i] == s[1..][i - 1];
      }
    }
  }

  function ParseComponentRef(ref: string): Option<Ref> {
    if !(PREFIX <= ref) then None
    else
      var rest := ref[|PREFIX|..];
      SlashIsFirst(rest);
      if Slash(rest) == |rest| then None else Some(Ref(rest[..Slash(rest)], rest[Slash(rest) + 1..]))
  }

  lemma ParsedIsWellFormed(ref: string, r: Ref)
    requires ParseComponentRef(ref) == Some(r)
    ensures ref == PREFIX + r.section + "/" + r.name && forall i :: 0 <= i < |r.section| ==> r.section[i] != '/'
  {
    var rest := ref[|PREFIX|..];
    SlashIsFirst(rest);
    var k := Slash(rest);
    assert rest == rest[..k] + "/" + rest[k + 1..];
  }

  lemma {:induction false} SlashAfter(a: string, b: string)
    requires forall i :: 0 <= i < |a| ==> a[i] != '/'
    ensures Slash(a + "/" + b) == |a|
  {
    if a != [] {
      assert (a + "/" + b)[1..] == a[1..] + "/" + b;
      SlashAfter(a[1..], b);
    }
  }

  lemma WellFormedIsParsed(r: Ref)
    requires forall i :: 0 <= i < |r.section| ==> r.section[i] != '/'
    ensures ParseComponentRef(PREFIX + r.section + "/" + r.name) == Some(r)
  {
    var ref := PREFIX + r.section + "/" + r.name;
    var rest := ref[|PREFIX|..];
    assert rest == r.section + "/" + r.name;
    SlashAfter(r.section, r.name);
    assert rest[..|r.section|] == r.section && rest[|r.section| + 1..] == r.name;
  }

  /** A reference is parsed iff it is the prefix, a section without '/', a '/' and a name. */
  lemma ParsesExactly(ref: string, r: Ref)
    ensures ParseComponentRef(ref) == Some(r) <==>
            ref == PREFIX + r.section + "/" + r.name && forall i :: 0 <= i < |r.section| ==> r.section[i] != '/'
  {
    if ParseComponentRef(ref) == Some(r) {
      ParsedIsWellFormed(ref, r);
    } else if forall i :: 0 <= i < |r.section| ==> r.section[i] != '/' {
      WellFormedIsParsed(r);
    }
  }

  ghost function Parsed(refs: seq<string>): set<Ref> {
    set s | s in refs && ParseComponentRef(s).Some? :: ParseComponentRef(s).value
  }

  // ---------------------------------------------------------------- components

  /** `components.get(section, {}).get(name)`: the component, or null if there is none; the outer
      None is the AttributeError when the section is not a dict. */
  function ComponentAt(components: Fields, r: Ref): Option<Json> {
    match Find(components, r.section)
    case None => Some(Null)
    case Some(Obj(values)) => (match Find(values, r.name) case Some(v) => Some(v) case None => Some(Null))
    case Some(_) => None
  }

  ghost function Links(components: Fields, r: Ref): set<Ref> {
    match ComponentAt(components, r)
    case Some(v) => Parsed(IterRefs(v))
    case None => {}
  }

  /** A chain of local references from the given ones. */
  ghost predicate Chain(components: Fields, roots: set<Ref>, chain: seq<Ref>) {
    chain != [] && chain[0] in roots &&
    forall i :: 0 < i < |chain| ==> chain[i] in Links(components, chain[i - 1])
  }

  ghost predicate Reachable(components: Fields, roots: set<Ref>, r: Ref) {
    exists chain :: Chain(components, roots, chain) && chain[|chain| - 1] == r
  }

  lemma RootsReachable(components: Fields, roots: set<Ref>, r: Ref)
    requires r in roots
    ensures Reachable(components, roots, r)
  {
    assert Chain(components, roots, [r]);
  }

  lemma LinksReachable(components: Fields, roots: set<Ref>, r: Ref, next: Ref)
    requires Reachable(components, roots, r) && next in Links(components, r)
    ensures Reachable(components, roots, next)
  {
    var chain :| Chain(components, roots, chain) && chain[|chain| - 1] == r;
    var longer := chain + [next];
    assert Chain(components, roots, longer);
    assert longer[|longer| - 1] == next;
  }

  /** A set that holds the roots and is closed under links holds every reachable component. */
  lemma ClosedHoldsReachable(components: Fields, roots: set<Ref>, used: set<Ref>, r: Ref)
    requires roots <= used && forall u :: u in used ==> Links(components, u) <= used
    requires Reachable(components, roots, r)
    ensures r in used
  {
    var chain :| Chain(components, roots, chain) && chain[|chain| - 1] == r;
    ChainInside(components, roots, used, chain, |chain| - 1);
  }

  lemma {:induction false} ChainInside(components: Fields, roots: set<Ref>, used: set<Ref>, chain: seq<Ref>, i: nat)
    requires roots <= used && forall u :: u in used ==> Links(components, u) <= used
    requires Chain(components, roots, chain) && i < |chain|
    ensures chain[i] in used
  {
    if i > 0 {
      ChainInside(components, roots, used, chain, i - 1);
      assert chain[i] in Links(components, chain[i - 1]);
    }
  }

  // ---------------------------------------------------------------- the worklist

  lemma ParsedConcat(a: seq<string>, b: seq<string>)
    ensures Parsed(a + b) == Parsed(a) + Parsed(b)
  {
    forall r | r in Parsed(a) ensures r in Parsed(a + b) {
      var s :| s in a && ParseComponentRef(s) == Some(r);
      assert s in a + b;
    }
    forall r | r in Parsed(b) ensures r in Parsed(a + b) {
      var s :| s in b && ParseComponentRef(s) == Some(r);
      assert s in a + b;
    }
  }

  lemma {:induction false} RefsOfMember(fs: Fields, i: nat)
    requires i < |fs|
    ensures forall s :: s in IterRefs(fs[i].value) ==> s in RefsInFields(fs)
  {
    if i > 0 {
      RefsOfMember(fs[1..], i - 1);
    }
  }

  /** Whatever a component refers to occurs somewhere in the components. */
  lemma LinksInUniverse(components: Fields, r: Ref)
    ensures Links(components, r) <= Parsed(RefsInFields(components))
  {
    var found := Find(components, r.section);
    if found.Some? && found.value.Obj? && Find(found.value.fields, r.name).Some? {
      var i := FindMember(components, r.section);
      RefsOfMember(components, i);
      var j := FindMember(found.value.fields, r.name);
      RefsOfMember(found.value.fields, j);
      var v := Find(found.value.fields, r.name).value;
      forall s | s in IterRefs(v) ensures s in RefsInFields(components) {
        assert s in IterRefs(components[i].value);
      }
    }
  }

  /** What the loop keeps: `open` is what is still to be followed. */
  ghost predicate Exploring(components: Fields, roots: set<Ref>, used: set<Ref>, open: set<Ref>) {
    && roots <= used + open
    && used + open <= roots + Parsed(RefsInFields(components))
    && (forall u :: u in used ==> ComponentAt(components, u).Some? && Links(components, u) <= used + open)
    && (forall u :: u in used + open ==> Reachable(components, roots, u))
  }

  lemma ForgetUsed(components: Fields, roots: set<Ref>, used: set<Ref>, open: set<Ref>, r: Ref)
    requires Exploring(components, roots, used, open + {r}) && r in used
    ensures Exploring(components, roots, used, open)
  {
    assert used + (open + {r}) == used + open;
  }

  lemma FollowNew(components: Fields, roots: set<Ref>, used: set<Ref>, open: set<Ref>, r: Ref)
    requires Exploring(components, roots, used, open + {r}) && r !in used && ComponentAt(components, r).Some?
    ensures Exploring(components, roots, used + {r}, open + Links(components, r))
  {
    LinksInUniverse(components, r);
    assert Reachable(components, roots, r) by { assert r in used + (open + {r}); }
    forall u | u in Links(components, r) ensures Reachable(components, roots, u) {
      LinksReachable(components, roots, r, u);
    }
    forall u | u in used + {r} + (open + Links(components, r)) ensures Reachable(components, roots, u) {
      assert u in used + (open + {r}) || u in Links(components, r);
    }
  }

  lemma Fewer(universe: set<Ref>, used: set<Ref>, r: Ref)
    requires r in universe && r !in used
    ensures |universe - (used + {r})| < |universe - used|
  {
    assert universe - (used + {r}) == (universe - used) - {r};
  }

  lemma ExploredAll(components: Fields, roots: set<Ref>, used: set<Ref>)
    requires Exploring(components, roots, used, {})
    ensures forall u :: u in used <==> Reachable(components, roots, u)
    ensures forall u :: Reachable(components, roots, u) ==> ComponentAt(components, u).Some?
  {
    assert used + {} == used;
    forall u | Reachable(components, roots, u) ensures u in used {
      ClosedHoldsReachable(components, roots, used, u);
    }
  }

  /** The worklist loop: the components used by the given references, or None when a section that
      is not a dict is referred to.  It terminates because every turn either uses up one of the
      finitely many references of the document or shortens the list. */
  method UsedRefs(roots: seq<string>, components: Fields) returns (r: Option<set<Ref>>)
    ensures r.Some? ==> forall u :: u in r.value <==> Reachable(components, Parsed(roots), u)
    ensures r.None? <==> exists u :: Reachable(components, Parsed(roots), u) && ComponentAt(components, u).None?
  {
    var used: set<Ref> := {};
    var pending := roots;
    ghost var start := Parsed(roots);
    ghost var universe := start + Parsed(RefsInFields(components));
    forall u | u in start ensures Reachable(components, start, u) {
      RootsReachable(components, start, u);
    }
    while pending != []
      invariant Exploring(components, start, used, Parsed(pending))
      decreases |universe - used|, |pending|
    {
      var last := pending[|pending| - 1];
      PopParsed(pending);
      pending := pending[..|pending| - 1];
      var parsed := ParseComponentRef(last);
      if parsed == None {
        continue;
      }
      var ref := parsed.value;
      if ref in used {
        ForgetUsed(components, start, used, Parsed(pending), ref);
        continue;
      }
      var component := ComponentAt(components, ref);
      if component == None {
        assert ref in used + (Parsed(pending) + {ref});
        return None;
      }
      FollowNew(components, start, used, Parsed(pending), ref);
      Fewer(universe, used, ref);
      ParsedConcat(pending, IterRefs(component.value));
      used := used + {ref};
      pending := pending + IterRefs(component.value);
    }
    assert Parsed([]) == {};
    ExploredAll(components, start, used);
    return Some(used);
  }

  lemma PopParsed(refs: seq<string>)
    requires refs != []
    ensures Parsed(refs) == Parsed(refs[..|refs| - 1])
              + match ParseComponentRef(refs[|refs| - 1]) case Some(r) => {r} case None => {}
  {
    var last := refs[|refs| - 1];
    assert refs == refs[..|refs| - 1] + [last];
    ParsedConcat(refs[..|refs| - 1], [last]);
    assert last in [last];
  }

  // ---------------------------------------------------------------- operations

  predicate Hashable(v: Json) {
    !v.Arr? && !v.Obj?
  }

  /** Iterating over a value in Python: a list's items, a dict's keys, a string's characters. */
  function Iterate(v: Json): Option<seq<Json>> {
    match v
    case Arr(items) => Some(items)
    case Obj(fs) => Some(seq(|fs|, i requires 0 <= i < |fs| => Str(fs[i].key)))
    case Str(s) => Some(seq(|s|, i requires 0 <= i < |s| => Str([s[i]])))
    case _ => None
  }

  function IterateOr(fs: Fields, key: string): Option<seq<Json>> {
    match Find(fs, key) case Some(v) => Iterate(v) case None => Some([])
  }

  /** `any(tag in public for tag in tags)`, with the TypeError on unhashable tags. */
  function AnyIn(tags: seq<Json>, public: set<string>): Option<bool> {
    if tags == [] then Some(false)
    else if !Hashable(tags[0]) then None
    else if tags[0].Str? && tags[0].s in public then Some(true)
    else AnyIn(tags[1..], public)
  }

  function IsPublic(operation: Json): Option<bool> {
    if !operation.Obj? then None
    else match IterateOr(operation.fields, "tags") case Some(tags) => AnyIn(tags, PUBLIC_TAGS) case None => None
  }

  function KeepMethods(methods: Fields): Option<Fields> {
    if methods == [] then Some([])
    else
      var keep, rest := IsPublic(methods[0].value), KeepMethods(methods[1..]);
      if keep.None? || rest.None? then None
      else Some((if keep.value then [methods[0]] else []) + rest.value)
  }

  function KeepPaths(paths: Fields): Option<Fields> {
    if paths == [] then Some([])
    else
      var rest := KeepPaths(paths[1..]);
      if paths[0].key in EXCLUDED_PATHS then rest
      else if rest.None? || !paths[0].value.Obj? then None
      else
        match KeepMethods(paths[0].value.fields)
        case None => None
        case Some(kept) => Some((if kept == [] then [] else [Field(paths[0].key, Obj(kept))]) + rest.value)
  }

  /** The top-level tag objects whose name is public. */
  function KeepTags(tags: seq<Json>, public: set<string>): Option<seq<Json>> {
    if tags == [] then Some([])
    else
      var rest := KeepTags(tags[1..], public);
      var name := if tags[0].Obj? then Find(tags[0].fields, "name") else None;
      if rest.None? || (name.Some? && !Hashable(name.value)) then None
      else Some((if name.Some? && name.value.Str? && name.value.s in public then [tags[0]] else []) + rest.value)
  }

  // ---------------------------------------------------------------- the filter

  function KeepNames(section: string, values: Fields, used: set<Ref>): Fields {
    if values == [] then []
    else (if Ref(section, values[0].key) in used then [values[0]] else []) + KeepNames(section, values[1..], used)
  }

  predicate KeptWhole(section: Field) {
    section.key == "securitySchemes" || !section.value.Obj?
  }

  function PruneSection(section: Field, used: set<Ref>): Fields {
    if KeptWhole(section) then [section]
    else
      var kept := KeepNames(section.key, section.value.fields, used);
      if kept == [] then [] else [Field(section.key, Obj(kept))]
  }

  function Prune(components: Fields, used: set<Ref>): Fields {
    if components == [] then [] else PruneSection(components[0], used) + Prune(components[1..], used)
  }

  /** A dict under a key, or {} when the key is missing; None when it is no dict. */
  function DictOr(fs: Fields, key: string): Option<Fields> {
    match Find(fs, key)
    case None => Some([])
    case Some(Obj(d)) => Some(d)
    case Some(_) => None
  }

  function Output(spec: Fields, tags: seq<Json>, paths: Fields, components: Fields): Fields {
    Put(Put(Put(spec, "tags", Arr(tags)), "paths", Obj(paths)), "components", Obj(components))
  }

  ghost function KeptTags(spec: Fields): Option<seq<Json>> {
    match IterateOr(spec, "tags") case Some(tags) => KeepTags(tags, PUBLIC_TAGS) case None => None
  }

  ghost function KeptPaths(spec: Fields): Option<Fields> {
    match DictOr(spec, "paths") case Some(paths) => KeepPaths(paths) case None => None
  }

  /** The references of the kept operations. */
  ghost function Roots(paths: Fields): set<Ref> {
    Parsed(IterRefs(Obj(paths)))
  }

  /** The filter raises an exception. */
  ghost predicate Malformed(spec: Fields) {
    KeptTags(spec).None? || KeptPaths(spec).None? || DictOr(spec, "components").None? ||
    exists u :: Reachable(DictOr(spec, "components").value, Roots(KeptPaths(spec).value), u) &&
                ComponentAt(DictOr(spec, "components").value, u).None?
  }

  /** `used` is exactly what the kept operations reach, and `out` the document pruned to it. */
  ghost predicate Filtered(spec: Fields, used: set<Ref>, out: Fields) {
    !Malformed(spec) &&
    var components, paths := DictOr(spec, "components").value, KeptPaths(spec).value;
    (forall u :: u in used <==> Reachable(components, Roots(paths), u)) &&
    out == Output(spec, KeptTags(spec).value, paths, Prune(components, used))
  }

  method FilterPublicOpenapi(spec: Fields) returns (r: Option<Fields>)
    ensures r.None? <==> Malformed(spec)
    ensures r.Some? ==> exists used :: Filtered(spec, used, r.value)
  {
    var tags := IterateOr(spec, "tags");
    if tags == None { return None; }
    var keptTags := KeepTags(tags.value, PUBLIC_TAGS);
    var paths := DictOr(spec, "paths");
    if keptTags == None || paths == None { return None; }
    var keptPaths := KeepPaths(paths.value);
    var components := DictOr(spec, "components");
    if keptPaths == None || components == None { return None; }
    var used := UsedRefs(IterRefs(Obj(keptPaths.value)), components.value);
    if used == None { return None; }
    var out := Output(spec, keptTags.value, keptPaths.value, Prune(components.value, used.value));
    assert Filtered(spec, used.value, out);
    return Some(out);
  }

  // ---------------------------------------------------------------- what is kept

  lemma OutputFinds(spec: Fields, tags: seq<Json>, paths: Fields, components: Fields)
    ensures var out := Output(spec, tags, paths, components);
            Find(out, "tags") == Some(Arr(tags)) && Find(out, "paths") == Some(Obj(paths)) &&
                Find(out, "components") == Some(Obj(components))
  {
    var a := Put(spec, "tags", Arr(tags));
    var b := Put(a, "paths", Obj(paths));
    forall k ensures Find(Put(b, "components", Obj(components)), k)
                  == if k == "components" then Some(Obj(components)) else Find(b, k) {
      PutFind(b, "components", Obj(components), k);
    }
    PutFind(a, "paths", Obj(paths), "tags");
    PutFind(a, "paths", Obj(paths), "paths");
    PutFind(spec, "tags", Arr(tags), "tags");
  }

  lemma {:induction false} KeepNamesFind(section: string, values: Fields, used: set<Ref>, name: string)
    requires UniqueKeys(values)
    ensures Find(KeepNames(section, values, used), name)
         == if Ref(section, name) in used then Find(values, name) else None
  {
    if values != [] {
      KeepNamesFind(section, values[1..], used, name);
      if values[0].key == name {
        forall i | 0 <= i < |values[1..]| ensures values[1..][i].key != name {
          assert values[1..][i] == values[i + 1];
        }
        FindHas(values[1..], name);
      }
      if Ref(section, values[0].key) in used {
        assert KeepNames(section, values, used)[1..] == KeepNames(section, values[1..], used);
      } else {
        assert KeepNames(section, values, used) == KeepNames(section, values[1..], used);
      }
    }
  }

  lemma {:induction false} PruneFind(components: Fields, used: set<Ref>, section: string)
    requires UniqueKeys(components)
    ensures Find(Prune(components, used), section) ==
            match Find(components, section)
            case None => None
            case Some(v) =>
              var pruned := PruneSection(Field(section, v), used);
              if pruned == [] then None else Some(pruned[0].value)
  {
    if components != [] {
      PruneFind(components[1..], used, section);
      var first := PruneSection(components[0], used);
      if components[0].key == section {
        forall i | 0 <= i < |components[1..]| ensures components[1..][i].key != section {
          assert components[1..][i] == components[i + 1];
        }
        FindHas(components[1..], section);
      }
      if first == [] {
        assert Prune(components, used) == Prune(components[1..], used);
      } else {
        assert Prune(components, used)[0] == first[0] && Prune(components, used)[1..] == Prune(components[1..], used);
      }
    }
  }

  /** The component stored under a reference, if there is one. */
  ghost function Stored(components: Fields, r: Ref): Option<Json> {
    match Find(components, r.section)
    case Some(Obj(values)) => Find(values, r.name)
    case _ => None
  }

  lemma PruneKeeps(components: Fields, used: set<Ref>, r: Ref)
    requires WellFormedFields(components)
    ensures Stored(Prune(components, used), r)
         == if r.section == "securitySchemes" || r in used then Stored(components, r) else None
  {
    PruneFind(components, used, r.section);
    if Find(components, r.section).Some? {
      var i := FindMember(components, r.section);
      assert WellFormed(components[i].value);
      if components[i].value.Obj? {
        KeepNamesFind(r.section, components[i].value.fields, used, r.name);
      }
    }
  }

  /** Pruning is exact: outside securitySchemes a component is kept, unchanged, iff a chain of
      local references reaches it from the kept operations. */
  lemma KeptIffReachable(spec: Fields, used: set<Ref>, out: Fields, r: Ref)
    requires WellFormedFields(spec) && Filtered(spec, used, out) && r.section != "securitySchemes"
    ensures var before, after := DictOr(spec, "components").value, DictOr(out, "components");
            after.Some? &&
            Stored(after.value, r) ==
              if Reachable(before, Roots(KeptPaths(spec).value), r) then Stored(before, r) else None
  {
    var components := DictOr(spec, "components").value;
    OutputFinds(spec, KeptTags(spec).value, KeptPaths(spec).value, Prune(components, used));
    ComponentsWellFormed(spec);
    PruneKeeps(components, used, r);
  }

  lemma ComponentsWellFormed(spec: Fields)
    requires WellFormedFields(spec) && DictOr(spec, "components").Some?
    ensures WellFormedFields(DictOr(spec, "components").value)
  {
    if Find(spec, "components").Some? {
      var i := FindMember(spec, "components");
      assert WellFormed(spec[i].value);
    }
  }

  /** A reference from a kept operation, or from a reachable component, that resolved in the
      full document still resolves, to the same component. */
  lemma RefsStillResolve(spec: Fields, used: set<Ref>, out: Fields, from: Ref, r: Ref)
    requires WellFormedFields(spec) && Filtered(spec, used, out)
    requires r in Roots(KeptPaths(spec).value) || (from in used && r in Links(DictOr(spec, "components").value, from))
    ensures var after := DictOr(out, "components");
            after.Some? && Stored(after.value, r) == Stored(DictOr(spec, "components").value, r)
  {
    var components, roots := DictOr(spec, "components").value, Roots(KeptPaths(spec).value);
    if r in roots {
      RootsReachable(components, roots, r);
    } else {
      LinksReachable(components, roots, from, r);
    }
    OutputFinds(spec, KeptTags(spec).value, KeptPaths(spec).value, Prune(components, used));
    ComponentsWellFormed(spec);
    PruneKeeps(components, used, r);
  }

  // ---------------------------------------------------------------- references by position

  /** One step down into a value: into a dict by key, into a list by index. */
  datatype Step = Key(name: string) | Index(i: nat)

  ghost function Child(v: Json, step: Step): Option<Json> {
    match step
    case Key(name) => if v.Obj? then Find(v.fields, name) else None
    case Index(i) => if v.Arr? && i < |v.items| then Some(v.items[i]) else None
  }

  ghost function ValueAt(v: Json, path: seq<Step>): Option<Json>
    decreases path
  {
    if path == [] then Some(v)
    else
      var child := Child(v, path[0]);
      if child.Some? then ValueAt(child.value, path[1..]) else None
  }

  /** At this position of the value stands a dict whose "$ref" is the string. */
  ghost predicate RefAt(v: Json, path: seq<Step>, s: string) {
    var at := ValueAt(v, path);
    at.Some? && at.value.Obj? && Find(at.value.fields, "$ref") == Some(Str(s))
  }

  ghost predicate Refers(v: Json, s: string) {
    exists path :: RefAt(v, path, s)
  }

  lemma RefBelow(v: Json, step: Step, s: string)
    requires Child(v, step).Some? && Refers(Child(v, step).value, s)
    ensures Refers(v, s)
  {
    var path :| RefAt(Child(v, step).value, path, s);
    assert ([step] + path)[1..] == path;
    assert RefAt(v, [step] + path, s);
  }

  /** A reference stands at the top of the value or below one step. */
  lemma RefFirst(v: Json, s: string) returns (step: Option<Step>)
    requires Refers(v, s)
    ensures step.None? ==> RefAt(v, [], s)
    ensures step.Some? ==> Child(v, step.value).Some? && Refers(Child(v, step.value).value, s)
  {
    var path :| RefAt(v, path, s);
    if path == [] {
      step := None;
    } else {
      step := Some(path[0]);
      assert RefAt(Child(v, path[0]).value, path[1..], s);
    }
  }

  /** The references found are exactly those with the prefix at any position of the value. */
  lemma {:induction false} IterRefsExact(v: Json, s: string)
    requires WellFormed(v)
    ensures s in IterRefs(v) <==> PREFIX <= s && Refers(v, s)
    decreases v, 0
  {
    match v
    case Obj(fs) => RefsInDict(fs, s);
    case Arr(items) => RefsInList(items, s);
    case _ =>
      if Refers(v, s) {
        var step := RefFirst(v, s);
        assert false;
      }
  }

  lemma {:induction false} RefsInDict(fs: Fields, s: string)
    requires WellFormedFields(fs)
    ensures s in IterRefs(Obj(fs)) <==> PREFIX <= s && Refers(Obj(fs), s)
    decreases fs, 1
  {
    FieldRefs(fs, s);
    if Find(fs, "$ref") == Some(Str(s)) {
      assert RefAt(Obj(fs), [], s);
    }
    if i :| 0 <= i < |fs| && PREFIX <= s && Refers(fs[i].value, s) {
      FindAt(fs, i);
      RefBelow(Obj(fs), Key(fs[i].key), s);
    }
    if Refers(Obj(fs), s) {
      var step := RefFirst(Obj(fs), s);
      if step.Some? {
        var i := FindMember(fs, step.value.name);
        assert Refers(fs[i].value, s);
      }
    }
  }

  lemma {:induction false} FieldRefs(fs: Fields, s: string)
    requires forall i :: 0 <= i < |fs| ==> WellFormed(fs[i].value)
    ensures s in RefsInFields(fs) <==> exists i :: 0 <= i < |fs| && PREFIX <= s && Refers(fs[i].value, s)
    decreases fs, 0
  {
    if fs != [] {
      IterRefsExact(fs[0].value, s);
      FieldRefs(fs[1..], s);
      if i :| 0 <= i < |fs[1..]| && PREFIX <= s && Refers(fs[1..][i].value, s) {
        assert fs[i + 1] == fs[1..][i];
      }
      if i :| 0 < i < |fs| && PREFIX <= s && Refers(fs[i].value, s) {
        assert fs[1..][i - 1] == fs[i];
      }
    }
  }

  lemma {:induction false} RefsInList(items: seq<Json>, s: string)
    requires forall i :: 0 <= i < |items| ==> WellFormed(items[i])
    ensures s in IterRefs(Arr(items)) <==> PREFIX <= s && Refers(Arr(items), s)
    decreases items, 1
  {
    ItemRefs(items, s);
    if i :| 0 <= i < |items| && PREFIX <= s && Refers(items[i], s) {
      RefBelow(Arr(items), Index(i), s);
    }
    if Refers(Arr(items), s) {
      var step := RefFirst(Arr(items), s);
      assert Refers(items[step.value.i], s);
    }
  }

  lemma {:induction false} ItemRefs(items: seq<Json>, s: string)
    requires forall i :: 0 <= i < |items| ==> WellFormed(items[i])
    ensures s in RefsInItems(items) <==> exists i :: 0 <= i < |items| && PREFIX <= s && Refers(items[i], s)
    decreases items, 0
  {
    if items != [] {
      IterRefsExact(items[0], s);
      ItemRefs(items[1..], s);
      if i :| 0 <= i < |items[1..]| && PREFIX <= s && Refers(items[1..][i], s) {
        assert items[i + 1] == items[1..][i];
      }
      if i :| 0 < i < |items| && PREFIX <= s && Refers(items[i], s) {
        assert items[1..][i - 1] == items[i];
      }
    }
  }

  /** Somewhere in the value stands the text of this reference. */
  ghost predicate Mentions(v: Json, r: Ref) {
    '/' !in r.section && Refers(v, PREFIX + r.section + "/" + r.name)
  }

  lemma MentionsIff(v: Json, r: Ref)
    requires WellFormed(v)
    ensures r in Parsed(IterRefs(v)) <==> Mentions(v, r)
  {
    var text := PREFIX + r.section + "/" + r.name;
    IterRefsExact(v, text);
    ParsesExactly(text, r);
    if r in Parsed(IterRefs(v)) {
      var s :| s in IterRefs(v) && ParseComponentRef(s) == Some(r);
      ParsesExactly(s, r);
    }
    if Mentions(v, r) {
      assert forall i :: 0 <= i < |r.section| ==> r.section[i] != '/';
      assert text in IterRefs(v);
    }
  }

  /** A chain of mentions: the first reference in the paths, each further one in the component the
      one before it stands for. */
  ghost predicate MentionChain(components: Fields, paths: Fields, chain: seq<Ref>) {
    && chain != [] && Mentions(Obj(paths), chain[0])
    && forall i :: 0 < i < |chain| ==> MentionedBy(components, chain[i - 1], chain[i])
  }

  ghost predicate MentionedBy(components: Fields, from: Ref, r: Ref) {
    Stored(components, from).Some? && Mentions(Stored(components, from).value, r)
  }

  ghost predicate Needed(components: Fields, paths: Fields, r: Ref) {
    exists chain :: MentionChain(components, paths, chain) && chain[|chain| - 1] == r
  }

  lemma StoredWellFormed(components: Fields, r: Ref)
    requires WellFormedFields(components) && Stored(components, r).Some?
    ensures WellFormed(Stored(components, r).value)
  {
    var i := FindMember(components, r.section);
    assert WellFormed(components[i].value);
    var j := FindMember(components[i].value.fields, r.name);
  }

  lemma LinksAreMentions(components: Fields, from: Ref, r: Ref)
    requires WellFormedFields(components)
    ensures r in Links(components, from) <==> MentionedBy(components, from, r)
  {
    if Stored(components, from).Some? {
      StoredWellFormed(components, from);
      MentionsIff(Stored(components, from).value, r);
    }
  }

  lemma ReachableIsNeeded(components: Fields, paths: Fields, r: Ref)
    requires WellFormedFields(components) && WellFormedFields(paths)
    ensures Reachable(components, Roots(paths), r) <==> Needed(components, paths, r)
  {
    forall chain: seq<Ref> ensures Chain(components, Roots(paths), chain) <==> MentionChain(components, paths, chain) {
      if chain != [] {
        MentionsIff(Obj(paths), chain[0]);
      }
      forall i | 0 < i < |chain|
        ensures chain[i] in Links(components, chain[i - 1]) <==> MentionedBy(components, chain[i - 1], chain[i])
      {
        LinksAreMentions(components, chain[i - 1], chain[i]);
      }
    }
  }

  // ---------------------------------------------------------------- the filtered document by position

  lemma {:induction false} KeepMethodsWellFormed(methods: Fields)
    requires WellFormedFields(methods) && KeepMethods(methods).Some?
    ensures WellFormedFields(KeepMethods(methods).value)
    ensures forall f :: f in KeepMethods(methods).value ==> f in methods
  {
    if methods != [] {
      KeepMethodsWellFormed(methods[1..]);
      FirstKeyIsNew(methods, KeepMethods(methods[1..]).value);
    }
  }

  lemma FirstKeyIsNew(fs: Fields, rest: Fields)
    requires fs != [] && UniqueKeys(fs) && forall f :: f in rest ==> exists i :: 0 < i < |fs| && fs[i].key == f.key
    ensures forall i :: 0 <= i < |rest| ==> rest[i].key != fs[0].key
  {
    forall i | 0 <= i < |rest| ensures rest[i].key != fs[0].key {
      assert rest[i] in rest;
    }
  }

  lemma {:induction false} KeepPathsWellFormed(paths: Fields)
    requires WellFormedFields(paths) && KeepPaths(paths).Some?
    ensures WellFormedFields(KeepPaths(paths).value)
    ensures forall f :: f in KeepPaths(paths).value ==> exists i :: 0 <= i < |paths| && paths[i].key == f.key
  {
    if paths != [] {
      KeepPathsWellFormed(paths[1..]);
      var rest := KeepPaths(paths[1..]).value;
      forall f | f in rest ensures exists i :: 0 < i < |paths| && paths[i].key == f.key {
        var i :| 0 <= i < |paths[1..]| && paths[1..][i].key == f.key;
        assert paths[i + 1].key == f.key;
      }
      FirstKeyIsNew(paths, rest);
      if paths[0].key !in EXCLUDED_PATHS {
        assert WellFormed(paths[0].value);
        KeepMethodsWellFormed(paths[0].value.fields);
      }
    }
  }

  lemma PathsWellFormed(spec: Fields)
    requires WellFormedFields(spec) && KeptPaths(spec).Some?
    ensures WellFormedFields(KeptPaths(spec).value)
  {
    if Find(spec, "paths").Some? {
      var i := FindMember(spec, "paths");
      assert WellFormed(spec[i].value);
    }
    KeepPathsWellFormed(DictOr(spec, "paths").value);
  }

  lemma FilteredParts(spec: Fields, used: set<Ref>, out: Fields)
    requires WellFormedFields(spec) && Filtered(spec, used, out)
    ensures var before, paths := DictOr(spec, "components").value, KeptPaths(spec).value;
            && WellFormedFields(before) && WellFormedFields(paths)
            && DictOr(out, "paths") == Some(paths) && DictOr(out, "components") == Some(Prune(before, used))
            && forall u :: u in used <==> Needed(before, paths, u)
  {
    var before, paths := DictOr(spec, "components").value, KeptPaths(spec).value;
    OutputFinds(spec, KeptTags(spec).value, paths, Prune(before, used));
    ComponentsWellFormed(spec);
    PathsWellFormed(spec);
    forall u ensures u in used <==> Needed(before, paths, u) {
      ReachableIsNeeded(before, paths, u);
    }
  }

  /** Outside securitySchemes the filtered document has exactly the components to which a chain of
      mentions leads from its own paths, unchanged. */
  lemma KeptIffNeeded(spec: Fields, used: set<Ref>, out: Fields, r: Ref)
    requires WellFormedFields(spec) && Filtered(spec, used, out) && r.section != "securitySchemes"
    ensures var before, after := DictOr(spec, "components").value, DictOr(out, "components");
            var paths := DictOr(out, "paths");
            && after.Some? && paths.Some?
            && Stored(after.value, r) == if Needed(before, paths.value, r) then Stored(before, r) else None
  {
    FilteredParts(spec, used, out);
    PruneKeeps(DictOr(spec, "components").value, used, r);
  }

  /** A section of the output: the security schemes and what is no dict stay as they are; a dict stays
      iff something in it is needed. */
  lemma SectionsExact(spec: Fields, used: set<Ref>, out: Fields, section: string)
    requires WellFormedFields(spec) && Filtered(spec, used, out)
    ensures var before, after := DictOr(spec, "components").value, DictOr(out, "components");
            var paths := DictOr(out, "paths");
            && after.Some? && paths.Some?
            && match Find(before, section)
               case None => Find(after.value, section) == None
               case Some(Obj(values)) =>
                 if section == "securitySchemes" then Find(after.value, section) == Find(before, section)
                 else
                   Find(after.value, section).Some? <==>
                     exists i :: 0 <= i < |values| && Needed(before, paths.value, Ref(section, values[i].key))
               case other => Find(after.value, section) == other
  {
    FilteredParts(spec, used, out);
    var before := DictOr(spec, "components").value;
    PruneFind(before, used, section);
    match Find(before, section)
    case Some(Obj(values)) => KeptNamesExist(section, values, used);
    case _ =>
  }

  lemma {:induction false} KeptNamesExist(section: string, values: Fields, used: set<Ref>)
    ensures KeepNames(section, values, used) != [] <==>
            exists i :: 0 <= i < |values| && Ref(section, values[i].key) in used
  {
    if values != [] {
      KeptNamesExist(section, values[1..], used);
      assert forall i :: 0 < i < |values| ==> values[i] == values[1..][i - 1];
      assert forall i :: 0 <= i < |values[1..]| ==> values[1..][i] == values[i + 1];
    }
  }

  /** Whatever the paths of the filtered document mention, or its components outside
      securitySchemes, at any position, stands for the same component as before. */
  lemma MentionsStillResolve(spec: Fields, used: set<Ref>, out: Fields, r: Ref)
    requires WellFormedFields(spec) && Filtered(spec, used, out)
    ensures var before, after := DictOr(spec, "components").value, DictOr(out, "components");
            var paths := DictOr(out, "paths");
            && after.Some? && paths.Some?
            && (Mentions(Obj(paths.value), r) ==> Stored(after.value, r) == Stored(before, r))
            && forall from: Ref :: from.section != "securitySchemes" && MentionedBy(after.value, from, r) ==>
                 Stored(after.value, r) == Stored(before, r)
  {
    FilteredParts(spec, used, out);
    var before, paths := DictOr(spec, "components").value, KeptPaths(spec).value;
    var after := Prune(before, used);
    PruneKeeps(before, used, r);
    if Mentions(Obj(paths), r) {
      assert MentionChain(before, paths, [r]);
    }
    forall from: Ref | from.section != "securitySchemes" && MentionedBy(after, from, r) ensures r in used {
      PruneKeeps(before, used, from);
      NeededNext(before, paths, from, r);
    }
  }

  lemma NeededNext(components: Fields, paths: Fields, from: Ref, r: Ref)
    requires Needed(components, paths, from) && MentionedBy(components, from, r)
    ensures Needed(components, paths, r)
  {
    var chain :| MentionChain(components, paths, chain) && chain[|chain| - 1] == from;
    assert MentionChain(components, paths, chain + [r]);
    assert (chain + [r])[|chain + [r]| - 1] == r;
  }

  /** The filter raises iff it cannot read the tags, paths or components, or if something needed
      lies in a section that is not a dict. */
  lemma RaisesIff(spec: Fields)
    requires WellFormedFields(spec)
    ensures Malformed(spec) <==>
            || KeptTags(spec).None? || KeptPaths(spec).None? || DictOr(spec, "components").None?
            || exists u :: Needed(DictOr(spec, "components").value, KeptPaths(spec).value, u) &&
                           InNoDict(DictOr(spec, "components").value, u)
  {
    if KeptTags(spec).Some? && KeptPaths(spec).Some? && DictOr(spec, "components").Some? {
      var components, paths := DictOr(spec, "components").value, KeptPaths(spec).value;
      ComponentsWellFormed(spec);
      PathsWellFormed(spec);
      forall u ensures Reachable(components, Roots(paths), u) <==> Needed(components, paths, u) {
        ReachableIsNeeded(components, paths, u);
      }
      forall u ensures ComponentAt(components, u).None? <==> InNoDict(components, u) {
      }
    }
  }

  ghost predicate InNoDict(components: Fields, r: Ref) {
    Find(components, r.section).Some? && !Find(components, r.section).value.Obj?
  }

  /** The security schemes are kept whole but not followed: a reference out of one that resolved in
      the full document still resolves iff it leads to a scheme or to something reachable. */
  lemma SchemeRefsResolveIff(spec: Fields, used: set<Ref>, out: Fields, scheme: Ref, r: Ref)
    requires WellFormedFields(spec) && Filtered(spec, used, out) && scheme.section == "securitySchemes"
    requires r in Links(DictOr(spec, "components").value, scheme) && Stored(DictOr(spec, "components").value, r).Some?
    ensures var before, after := DictOr(spec, "components").value, DictOr(out, "components");
            && after.Some? && Stored(after.value, scheme) == Stored(before, scheme)
            && (Stored(after.value, r) == Stored(before, r) <==>
                r.section == "securitySchemes" || Reachable(before, Roots(KeptPaths(spec).value), r))
  {
    var components := DictOr(spec, "components").value;
    OutputFinds(spec, KeptTags(spec).value, KeptPaths(spec).value, Prune(components, used));
    ComponentsWellFormed(spec);
    PruneKeeps(components, used, scheme);
    PruneKeeps(components, used, r);
  }

  /** So it may be left dangling: a document of one scheme that refers to a schema, and nothing
      that is public, keeps the scheme without the schema. */
  lemma SchemeRefsMayDangle()
    ensures var scheme, target := Ref("securitySchemes", "oauth"), Ref("schemas", "Flow");
            var flow := Obj([Field("$ref", Str(PREFIX + "schemas" + "/" + "Flow"))]);
            var before := [Field("securitySchemes", Obj([Field("oauth", flow)])),
                           Field("schemas", Obj([Field("Flow", Obj([]))]))];
            var after := Prune(before, {});
            && Filtered(OnlyComponents(before), {}, Output(OnlyComponents(before), [], [], after))
            && DictOr(Output(OnlyComponents(before), [], [], after), "components") == Some(after)
            && target in Links(before, scheme) && Stored(before, target).Some?
            && Stored(after, scheme) == Some(flow) && Stored(after, target) == None
  {
    var flow := Obj([Field("$ref", Str(PREFIX + "schemas" + "/" + "Flow"))]);
    DanglingComponents();
    NothingPublic([Field("securitySchemes", Obj([Field("oauth", flow)])),
                   Field("schemas", Obj([Field("Flow", Obj([]))]))]);
  }

  function OnlyComponents(components: Fields): Fields {
    [Field("components", Obj(components))]
  }

  /** In a document of components alone nothing is reachable. */
  lemma NothingPublic(components: Fields)
    ensures var spec := OnlyComponents(components);
            var out := Output(spec, [], [], Prune(components, {}));
            Filtered(spec, {}, out) && DictOr(out, "components") == Some(Prune(components, {}))
  {
    NoOperations(components);
    OutputFinds(OnlyComponents(components), [], [], Prune(components, {}));
  }

  lemma NoOperations(components: Fields)
    ensures var spec := OnlyComponents(components);
            && DictOr(spec, "components") == Some(components)
            && KeptTags(spec) == Some([]) && KeptPaths(spec) == Some([]) && Roots([]) == {}
  {
    FindFirst("components", Obj(components), []);
    FindOther("components", Obj(components), "tags");
    FindOther("components", Obj(components), "paths");
  }

  lemma FindOther(key: string, value: Json, other: string)
    requires key != other
    ensures Find([Field(key, value)], other) == None
  {
    assert [Field(key, value)][1..] == [];
  }

  lemma DanglingComponents()
    ensures var scheme, target := Ref("securitySchemes", "oauth"), Ref("schemas", "Flow");
            var flow := Obj([Field("$ref", Str(PREFIX + "schemas" + "/" + "Flow"))]);
            var components := [Field("securitySchemes", Obj([Field("oauth", flow)])),
                               Field("schemas", Obj([Field("Flow", Obj([]))]))];
            target in Links(components, scheme) && Stored(components, target).Some? &&
            Stored(Prune(components, {}), scheme) == Some(flow) && Stored(Prune(components, {}), target) == None
  {
    var scheme, target := Ref("securitySchemes", "oauth"), Ref("schemas", "Flow");
    var text := PREFIX + "schemas" + "/" + "Flow";
    var flow := Obj([Field("$ref", Str(text))]);
    var schemes, schemas := [Field("oauth", flow)], [Field("Flow", Obj([]))];
    var components := [Field("securitySchemes", Obj(schemes)), Field("schemas", Obj(schemas))];
    assert |"securitySchemes"| == 15 && |"schemas"| == 7;
    assert components[1..] == [Field("schemas", Obj(schemas))] && schemes[1..] == [] && flow.fields[1..] == [];
    FindFirst("securitySchemes", Obj(schemes), [Field("schemas", Obj(schemas))]);
    FindFirst("oauth", flow, []);
    FindFirst("schemas", Obj(schemas), []);
    FindFirst("Flow", Obj([]), []);
    FindFirst("$ref", Str(text), []);
    assert components == [Field("securitySchemes", Obj(schemes))] + [Field("schemas", Obj(schemas))];
    assert Find(components, "schemas") == Some(Obj(schemas));
    WellFormedIsParsed(target);
    assert IterRefs(flow)[0] == text;
    assert Links(components, scheme) == Parsed(IterRefs(flow));
    assert WellFormed(flow) && WellFormed(Obj([]));
    assert WellFormedFields(schemes) && WellFormedFields(schemas);
    assert WellFormed(components[0].value) && WellFormed(components[1].value);
    PruneKeeps(components, {}, scheme);
    PruneKeeps(components, {}, target);
  }

  lemma FindFirst(key: string, value: Json, rest: Fields)
    ensures Find([Field(key, value)] + rest, key) == Some(value)
    ensures rest == [] ==> [Field(key, value)] + rest == [Field(key, value)]
  {
  }

  // ---------------------------------------------------------------- what is public

  /** Walking the tags finds a public one before any list or dict. */
  ghost predicate FirstPublic(tags: seq<Json>, public: set<string>, k: nat) {
    && k < |tags| && tags[k].Str? && tags[k].s in public
    && forall i :: 0 <= i < k ==> !tags[i].Arr? && !tags[i].Obj?
  }

  /** It meets a list or a dict first. */
  ghost predicate FirstUnhashable(tags: seq<Json>, public: set<string>, k: nat) {
    && k < |tags| && (tags[k].Arr? || tags[k].Obj?)
    && forall i :: 0 <= i < k ==> !(tags[i].Str? && tags[i].s in public)
  }

  lemma {:induction false} AnyInExact(tags: seq<Json>, public: set<string>)
    ensures AnyIn(tags, public) == Some(true) <==> exists k: nat :: FirstPublic(tags, public, k)
    ensures AnyIn(tags, public) == None <==> exists k: nat :: FirstUnhashable(tags, public, k)
  {
    if tags != [] {
      AnyInExact(tags[1..], public);
      assert FirstPublic(tags, public, 0) <==> tags[0].Str? && tags[0].s in public;
      assert FirstUnhashable(tags, public, 0) <==> tags[0].Arr? || tags[0].Obj?;
      forall k: nat | k > 0
        ensures FirstPublic(tags, public, k) <==> Hashable(tags[0]) && FirstPublic(tags[1..], public, k - 1)
        ensures FirstUnhashable(tags, public, k) <==>
                !(tags[0].Str? && tags[0].s in public) && FirstUnhashable(tags[1..], public, k - 1)
      {
        TailPublic(tags, public, k);
      }
      if k: nat :| FirstPublic(tags[1..], public, k) {
        assert FirstPublic(tags, public, k + 1) <==> Hashable(tags[0]) && FirstPublic(tags[1..], public, k);
      }
      if k: nat :| FirstUnhashable(tags[1..], public, k) {
        assert FirstUnhashable(tags, public, k + 1) <==>
               !(tags[0].Str? && tags[0].s in public) && FirstUnhashable(tags[1..], public, k);
      }
    }
  }

  lemma TailPublic(tags: seq<Json>, public: set<string>, k: nat)
    requires tags != [] && k > 0
    ensures FirstPublic(tags, public, k) <==> Hashable(tags[0]) && FirstPublic(tags[1..], public, k - 1)
    ensures FirstUnhashable(tags, public, k) <==>
            !(tags[0].Str? && tags[0].s in public) && FirstUnhashable(tags[1..], public, k - 1)
  {
    var rest := tags[1..];
    assert forall i :: 0 <= i < |rest| ==> rest[i] == tags[i + 1];
    assert forall i :: 0 < i < |tags| ==> tags[i] == rest[i - 1];
  }

  lemma {:induction false} NamesPublic(tags: seq<Json>, names: seq<string>, public: set<string>)
    requires |tags| == |names| && forall i :: 0 <= i < |tags| ==> tags[i] == Str(names[i])
    ensures AnyIn(tags, public) == Some(exists i :: 0 <= i < |names| && names[i] in public)
  {
    if tags != [] {
      NamesPublic(tags[1..], names[1..], public);
      assert forall i :: 0 < i < |names| ==> names[i] == names[1..][i - 1];
      assert forall i :: 0 <= i < |names[1..]| ==> names[1..][i] == names[i + 1];
    }
  }

  /** A string is walked letter by letter, and no public tag is a single letter. */
  lemma {:induction false} NoPublicLetter(tags: seq<Json>, s: string, public: set<string>)
    requires |tags| == |s| && forall i :: 0 <= i < |tags| ==> tags[i] == Str([s[i]])
    requires forall p :: p in public ==> |p| > 1
    ensures AnyIn(tags, public) == Some(false)
  {
    if tags != [] {
      assert [s[0]] !in public;
      NoPublicLetter(tags[1..], s[1..], public);
    }
  }

  lemma LongerTags()
    ensures forall tag :: tag in PUBLIC_TAGS ==> |tag| > 1
  {
  }

  /** What walking over the tags says: in a list a public tag counts if no list or dict stands before
      it, of a dict the keys count, and no string has a public letter. */
  ghost predicate TagsSay(tags: Json, public: set<string>, r: Option<bool>) {
    match tags
    case Arr(items) =>
      && (r == Some(true) <==> exists k: nat :: FirstPublic(items, public, k))
      && (r == None <==> exists k: nat :: FirstUnhashable(items, public, k))
    case Str(_) => r == Some(false)
    case Obj(fs) => r == Some(exists i :: 0 <= i < |fs| && Keys(fs)[i] in public)
    case _ => r == None
  }

  lemma IterateSays(tags: Json, public: set<string>)
    requires forall p :: p in public ==> |p| > 1
    ensures TagsSay(tags, public, if Iterate(tags).Some? then AnyIn(Iterate(tags).value, public) else None)
  {
    match tags
    case Arr(items) => AnyInExact(items, public);
    case Str(s) => NoPublicLetter(Iterate(tags).value, s, public);
    case Obj(fs) => NamesPublic(Iterate(tags).value, Keys(fs), public);
    case _ =>
  }

  /** An operation is public iff its tags say so; without tags it is not. */
  lemma PublicIff(operation: Fields)
    ensures match Find(operation, "tags")
            case None => IsPublic(Obj(operation)) == Some(false)
            case Some(tags) => TagsSay(tags, PUBLIC_TAGS, IsPublic(Obj(operation)))
  {
    LongerTags();
    if Find(operation, "tags").Some? {
      IterateSays(Find(operation, "tags").value, PUBLIC_TAGS);
    }
  }

  ghost predicate PathRaises(path: Field) {
    path.key !in EXCLUDED_PATHS && (!path.value.Obj? || SomeRaises(path.value.fields))
  }

  ghost predicate SomeRaises(methods: Fields) {
    exists j :: 0 <= j < |methods| && IsPublic(methods[j].value).None?
  }

  lemma {:induction false} KeepMethodsRaise(methods: Fields)
    ensures KeepMethods(methods).None? <==> SomeRaises(methods)
  {
    if methods != [] {
      KeepMethodsRaise(methods[1..]);
      assert forall j :: 0 < j < |methods| ==> methods[j] == methods[1..][j - 1];
      assert forall j :: 0 <= j < |methods[1..]| ==> methods[1..][j] == methods[j + 1];
    }
  }

  /** The paths raise iff one that is not excluded is no dict, or has an operation that is no dict or
      whose tags raise. */
  lemma {:induction false} KeepPathsRaise(paths: Fields)
    ensures KeepPaths(paths).None? <==> exists i :: 0 <= i < |paths| && PathRaises(paths[i])
    ensures forall operation: Json :: !operation.Obj? ==> IsPublic(operation).None?
  {
    if paths != [] {
      KeepPathsRaise(paths[1..]);
      assert forall i :: 0 < i < |paths| ==> paths[i] == paths[1..][i - 1];
      assert forall i :: 0 <= i < |paths[1..]| ==> paths[1..][i] == paths[i + 1];
      if paths[0].value.Obj? {
        KeepMethodsRaise(paths[0].value.fields);
      }
      assert KeepPaths(paths).None? <==> PathRaises(paths[0]) || KeepPaths(paths[1..]).None?;
    }
  }

  ghost predicate KeepsTag(tag: Json, public: set<string>) {
    tag.Obj? && Find(tag.fields, "name").Some? && Find(tag.fields, "name").value.Str? &&
    Find(tag.fields, "name").value.s in public
  }

  /** The positions of the kept tags: all of them, in order. */
  ghost predicate KeptAt(tags: seq<Json>, public: set<string>, kept: seq<Json>, at: seq<nat>) {
    && |at| == |kept|
    && (forall k :: 0 <= k < |at| ==> at[k] < |tags| && KeepsTag(tags[at[k]], public) && kept[k] == tags[at[k]])
    && (forall j, k :: 0 <= j < k < |at| ==> at[j] < at[k])
    && forall i :: 0 <= i < |tags| && KeepsTag(tags[i], public) ==> i in at
  }

  ghost predicate Nameless(tag: Json) {
    && tag.Obj? && Find(tag.fields, "name").Some?
    && (Find(tag.fields, "name").value.Arr? || Find(tag.fields, "name").value.Obj?)
  }

  /** The top-level tags raise iff some object has a list or a dict for its name. */
  lemma {:induction false} KeepTagsRaise(tags: seq<Json>, public: set<string>)
    ensures KeepTags(tags, public).None? <==> exists i :: 0 <= i < |tags| && Nameless(tags[i])
  {
    if tags != [] {
      KeepTagsRaise(tags[1..], public);
      assert forall i :: 0 < i < |tags| ==> tags[i] == tags[1..][i - 1];
      assert forall i :: 0 <= i < |tags[1..]| ==> tags[1..][i] == tags[i + 1];
      assert KeepTags(tags, public).None? <==> Nameless(tags[0]) || KeepTags(tags[1..], public).None?;
    }
  }

  /** The kept top-level tags are exactly the objects with a public name, in their order. */
  lemma {:induction false} KeepTagsExact(tags: seq<Json>, public: set<string>) returns (at: seq<nat>)
    ensures KeepTags(tags, public).Some? ==> KeptAt(tags, public, KeepTags(tags, public).value, at)
  {
    at := [];
    if tags != [] {
      var before := KeepTagsExact(tags[1..], public);
      var later := seq(|before|, k requires 0 <= k < |before| => before[k] + 1);
      at := if KeepsTag(tags[0], public) then [0] + later else later;
      if KeepTags(tags, public).Some? {
        KeepTagsCons(tags, public);
        KeptLater(tags, public, KeepTags(tags[1..], public).value, before, later);
        KeptCons(tags, public, KeepTags(tags[1..], public).value, later);
      }
    }
  }

  lemma KeepTagsCons(tags: seq<Json>, public: set<string>)
    requires tags != [] && KeepTags(tags, public).Some?
    ensures KeepTags(tags[1..], public).Some?
    ensures var rest := KeepTags(tags[1..], public).value;
            KeepTags(tags, public).value == if KeepsTag(tags[0], public) then [tags[0]] + rest else rest
  {
    var rest := KeepTags(tags[1..], public).value;
    assert [] + rest == rest;
  }

  lemma KeptCons(tags: seq<Json>, public: set<string>, kept: seq<Json>, later: seq<nat>)
    requires tags != [] && KeptFrom(tags, public, kept, later)
    ensures KeepsTag(tags[0], public) ==> KeptAt(tags, public, [tags[0]] + kept, [0] + later)
    ensures !KeepsTag(tags[0], public) ==> KeptAt(tags, public, kept, later)
  {
    var all := [0] + later;
    forall i | 0 <= i < |tags| && KeepsTag(tags[i], public) ensures i in all {
      assert i == 0 || i in later;
    }
  }

  ghost predicate KeptFrom(tags: seq<Json>, public: set<string>, kept: seq<Json>, at: seq<nat>) {
    && |at| == |kept|
    && (forall k :: 0 <= k < |at| ==> 0 < at[k] < |tags| && KeepsTag(tags[at[k]], public) && kept[k] == tags[at[k]])
    && (forall j, k :: 0 <= j < k < |at| ==> at[j] < at[k])
    && forall i :: 0 < i < |tags| && KeepsTag(tags[i], public) ==> i in at
  }

  lemma KeptLater(tags: seq<Json>, public: set<string>, kept: seq<Json>, at: seq<nat>, later: seq<nat>)
    requires tags != [] && KeptAt(tags[1..], public, kept, at)
    requires |later| == |at| && forall k :: 0 <= k < |at| ==> later[k] == at[k] + 1
    ensures KeptFrom(tags, public, kept, later)
  {
    forall i | 0 < i < |tags| && KeepsTag(tags[i], public) ensures i in later {
      assert tags[1..][i - 1] == tags[i];
      var k :| 0 <= k < |at| && at[k] == i - 1;
      assert later[k] == i;
    }
    forall k | 0 <= k < |at| ensures tags[1..][at[k]] == tags[later[k]] {
    }
  }

  /** The other members of the document are copied. */
  lemma OthersCopied(spec: Fields, used: set<Ref>, out: Fields, key: string)
    requires Filtered(spec, used, out)
    ensures Find(out, "tags") == Some(Arr(KeptTags(spec).value))
    ensures key !in {"tags", "paths", "components"} ==> Find(out, key) == Find(spec, key)
  {
    var tags, paths := KeptTags(spec).value, KeptPaths(spec).value;
    var components := Prune(DictOr(spec, "components").value, used);
    OutputFinds(spec, tags, paths, components);
    PutFind(spec, "tags", Arr(tags), key);
    PutFind(Put(spec, "tags", Arr(tags)), "paths", Obj(paths), key);
    PutFind(Put(Put(spec, "tags", Arr(tags)), "paths", Obj(paths)), "components", Obj(components), key);
  }

  // ---------------------------------------------------------------- the kept operations

  lemma {:induction false} KeepMethodsFind(methods: Fields, name: string)
    requires UniqueKeys(methods) && KeepMethods(methods).Some?
    ensures var op := Find(methods, name);
            Find(KeepMethods(methods).value, name) == if op.Some? && IsPublic(op.value) == Some(true) then op else None
  {
    if methods != [] {
      KeepMethodsFind(methods[1..], name);
      var kept, rest := KeepMethods(methods).value, KeepMethods(methods[1..]).value;
      if IsPublic(methods[0].value).value {
        assert kept[0] == methods[0] && kept[1..] == rest;
      } else {
        assert kept == rest;
      }
      if methods[0].key == name {
        forall i | 0 <= i < |methods[1..]| ensures methods[1..][i].key != name {
          assert methods[1..][i] == methods[i + 1];
        }
        FindHas(methods[1..], name);
      }
    }
  }

  /** The operation stored under a path and a method. */
  ghost function OperationAt(paths: Fields, path: string, name: string): Option<Json> {
    match Find(paths, path)
    case Some(Obj(methods)) => Find(methods, name)
    case _ => None
  }

  /** An operation is kept, unchanged, iff its path is not excluded and it has a public tag. */
  lemma {:induction false} KeepPathsExact(paths: Fields, path: string, name: string)
    requires WellFormedFields(paths) && KeepPaths(paths).Some?
    ensures var op := OperationAt(paths, path, name);
            OperationAt(KeepPaths(paths).value, path, name) ==
              if path !in EXCLUDED_PATHS && op.Some? && IsPublic(op.value) == Some(true) then op else None
  {
    if paths != [] {
      var first, rest := paths[0], KeepPaths(paths[1..]).value;
      assert WellFormed(first.value);
      KeepPathsExact(paths[1..], path, name);
      if first.key == path {
        forall i | 0 <= i < |paths[1..]| ensures paths[1..][i].key != path {
          assert paths[1..][i] == paths[i + 1];
        }
        FindHas(paths[1..], path);
        NoNewPaths(paths[1..], path);
      }
      if first.key !in EXCLUDED_PATHS {
        KeepMethodsFind(first.value.fields, name);
        var kept := KeepMethods(first.value.fields).value;
        if kept == [] {
          assert KeepPaths(paths).value == rest;
        } else {
          assert KeepPaths(paths).value[0] == Field(first.key, Obj(kept)) && KeepPaths(paths).value[1..] == rest;
        }
      }
    }
  }

  lemma {:induction false} NoNewPaths(paths: Fields, path: string)
    requires KeepPaths(paths).Some? && Find(paths, path) == None
    ensures Find(KeepPaths(paths).value, path) == None
  {
    if paths != [] {
      NoNewPaths(paths[1..], path);
      var rest := KeepPaths(paths[1..]).value;
      if paths[0].key !in EXCLUDED_PATHS {
        var kept := KeepMethods(paths[0].value.fields).value;
        if kept != [] {
          assert KeepPaths(paths).value[1..] == rest;
        } else {
          assert KeepPaths(paths).value == rest;
        }
      }
    }
  }

  // ---------------------------------------------------------------- filtering twice

  lemma {:induction false} KeepTagsTwice(tags: seq<Json>, public: set<string>)
    requires KeepTags(tags, public).Some?
    ensures KeepTags(KeepTags(tags, public).value, public) == KeepTags(tags, public)
  {
    if tags != [] {
      KeepTagsTwice(tags[1..], public);
      var kept, rest := KeepTags(tags, public).value, KeepTags(tags[1..], public).value;
      if kept != rest {
        assert kept[0] == tags[0] && kept[1..] == rest;
      }
    }
  }

  lemma {:induction false} KeepMethodsTwice(methods: Fields)
    requires KeepMethods(methods).Some?
    ensures KeepMethods(KeepMethods(methods).value) == KeepMethods(methods)
  {
    if methods != [] {
      KeepMethodsTwice(methods[1..]);
      var kept, rest := KeepMethods(methods).value, KeepMethods(methods[1..]).value;
      if IsPublic(methods[0].value).value {
        assert kept[0] == methods[0] && kept[1..] == rest;
      } else {
        assert kept == rest;
      }
    }
  }

  lemma {:induction false} KeepPathsTwice(paths: Fields)
    requires KeepPaths(paths).Some?
    ensures KeepPaths(KeepPaths(paths).value) == KeepPaths(paths)
  {
    if paths != [] {
      KeepPathsTwice(paths[1..]);
      var rest := KeepPaths(paths[1..]).value;
      if paths[0].key !in EXCLUDED_PATHS {
        KeepMethodsTwice(paths[0].value.fields);
        var kept := KeepMethods(paths[0].value.fields).value;
        if kept == [] {
          assert KeepPaths(paths).value == rest;
        } else {
          var r := KeepPaths(paths).value;
          assert r[0] == Field(paths[0].key, Obj(kept)) && r[1..] == rest;
        }
      }
    }
  }

  lemma {:induction false} KeepNamesTwice(section: string, values: Fields, used: set<Ref>)
    ensures KeepNames(section, KeepNames(section, values, used), used) == KeepNames(section, values, used)
  {
    if values != [] {
      KeepNamesTwice(section, values[1..], used);
      var kept, rest := KeepNames(section, values, used), KeepNames(section, values[1..], used);
      if Ref(section, values[0].key) in used {
        assert kept[0] == values[0] && kept[1..] == rest;
      } else {
        assert kept == rest;
      }
    }
  }

  lemma {:induction false} PruneTwice(components: Fields, used: set<Ref>)
    ensures Prune(Prune(components, used), used) == Prune(components, used)
  {
    if components != [] {
      PruneTwice(components[1..], used);
      var first, rest := PruneSection(components[0], used), Prune(components[1..], used);
      if first == [] {
        assert Prune(components, used) == rest;
      } else {
        if !KeptWhole(components[0]) {
          KeepNamesTwice(components[0].key, components[0].value.fields, used);
        }
        assert PruneSection(first[0], used) == first;
        assert Prune(components, used)[0] == first[0] && Prune(components, used)[1..] == rest;
      }
    }
  }

  /** A used component is found after pruning exactly as before. */
  lemma PrunedComponentAt(components: Fields, used: set<Ref>, r: Ref)
    requires WellFormedFields(components) && r in used && ComponentAt(components, r).Some?
    ensures ComponentAt(Prune(components, used), r) == ComponentAt(components, r)
  {
    PruneFind(components, used, r.section);
    PruneKeeps(components, used, r);
  }

  /** Pruning to what is reachable changes no reachability. */
  lemma PruneKeepsReachability(components: Fields, roots: set<Ref>, used: set<Ref>, r: Ref)
    requires WellFormedFields(components)
    requires forall u :: u in used <==> Reachable(components, roots, u)
    requires forall u :: u in used ==> ComponentAt(components, u).Some?
    ensures Reachable(Prune(components, used), roots, r) <==> r in used
  {
    var pruned := Prune(components, used);
    forall u | u in used ensures Links(pruned, u) == Links(components, u) && Links(components, u) <= used {
      PrunedComponentAt(components, used, u);
      forall v | v in Links(components, u) ensures v in used {
        LinksReachable(components, roots, u, v);
      }
    }
    forall u | u in roots ensures u in used {
      RootsReachable(components, roots, u);
    }
    if Reachable(pruned, roots, r) {
      ClosedHoldsReachable(pruned, roots, used, r);
    }
    if r in used {
      SameLinksReach(components, pruned, roots, used, r);
    }
  }

  lemma SameLinksReach(a: Fields, b: Fields, roots: set<Ref>, used: set<Ref>, r: Ref)
    requires roots <= used && forall u :: u in used ==> Links(b, u) == Links(a, u) && Links(a, u) <= used
    requires Reachable(a, roots, r)
    ensures Reachable(b, roots, r)
  {
    var chain :| Chain(a, roots, chain) && chain[|chain| - 1] == r;
    forall i | 0 < i < |chain| ensures chain[i] in Links(b, chain[i - 1]) {
      ChainInside(a, roots, used, chain, i - 1);
    }
    assert Chain(b, roots, chain);
  }

  /** Filtering the filtered document changes nothing. */
  lemma FilterTwice(spec: Fields, used: set<Ref>, out: Fields)
    requires WellFormedFields(spec) && Filtered(spec, used, out)
    ensures Filtered(out, used, out)
    ensures forall again, third :: Filtered(out, again, third) ==> third == out
  {
    var tags, paths, components := KeptTags(spec).value, KeptPaths(spec).value, DictOr(spec, "components").value;
    var pruned, roots := Prune(components, used), Roots(paths);
    OutputFinds(spec, tags, paths, pruned);
    ComponentsWellFormed(spec);
    KeepTagsTwice(match IterateOr(spec, "tags") case Some(t) => t case None => [], PUBLIC_TAGS);
    KeepPathsTwice(DictOr(spec, "paths").value);
    assert KeptTags(out) == Some(tags) && KeptPaths(out) == Some(paths) && DictOr(out, "components") == Some(pruned);
    forall u ensures Reachable(pruned, roots, u) <==> u in used {
      PruneKeepsReachability(components, roots, used, u);
    }
    forall u | u in used ensures ComponentAt(pruned, u).Some? {
      PrunedComponentAt(components, used, u);
    }
    PruneTwice(components, used);
    PutSame(out, "tags");
    PutSame(out, "paths");
    PutSame(out, "components");
    assert Output(out, tags, paths, pruned) == out;
    forall again, third | Filtered(out, again, third) ensures third == out {
      assert forall u :: u in again <==> u in used;
      assert again == used;
    }
  }
}

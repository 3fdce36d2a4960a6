/** Repairing a loaded configuration against a reference tree of defaults. */
module ConfigIntegrity {
  import opened Text
  import opened Json

  // ---------------------------------------------------------------- the repair

  /** What one reference key becomes, and whether that counts as new. */
  function RepairValue(refer: Json, found: Option<Json>): (Json, bool)
    decreases refer
  {
    match found
    case None => (refer, true)
    case Some(v) =>
      if v == Null then (refer, true)
      else if refer.Obj? then
        if v.Obj? then var (child, childNew) := Repair(refer.fields, v.fields); (Obj(child), childNew)
        else (refer, true)
      else (v, false)
  }

  /** The repaired values, in the reference's order, and whether any of them is new. */
  function RepairAll(refer: Fields, conf: Fields): (r: (Fields, bool))
    ensures |r.0| == |refer|
    decreases refer, 0
  {
    if refer == [] then ([], false)
    else
      var (value, isNew) := RepairValue(refer[0].value, Find(conf, refer[0].key));
      var (rest, restNew) := RepairAll(refer[1..], conf);
      ([Field(refer[0].key, value)] + rest, isNew || restNew)
  }

  predicate HasExtra(refer: Fields, conf: Fields) {
    exists i :: 0 <= i < |conf| && !Has(refer, conf[i].key)
  }

  function Repair(refer: Fields, conf: Fields): (Fields, bool)
    decreases refer, 1
  {
    var (repaired, anyNew) := RepairAll(refer, conf);
    (repaired, anyNew || HasExtra(refer, conf) || Keys(conf) != Keys(repaired))
  }

  lemma RepairAllSplits(refer: Fields, conf: Fields, i: nat)
    requires i < |refer|
    ensures var (value, isNew) := RepairValue(refer[i].value, Find(conf, refer[i].key));
            RepairAll(refer[i..], conf) ==
              ([Field(refer[i].key, value)] + RepairAll(refer[i + 1..], conf).0,
               isNew || RepairAll(refer[i + 1..], conf).1)
  {
    assert refer[i..][0] == refer[i] && refer[i..][1..] == refer[i + 1..];
  }

  /** The source's loops.  The original rewrites `conf` and its nested dicts in place; here the
      new contents are returned. */
  method CheckConfigIntegrity(refer: Fields, conf: Fields) returns (repaired: Fields, hasNew: bool)
    requires WellFormedFields(refer)
    ensures (repaired, hasNew) == Repair(refer, conf)
    decreases refer, 1
  {
    hasNew := false;
    repaired := [];
    assert refer[0..] == refer;
    for i := 0 to |refer|
      invariant RepairAll(refer, conf).0 == repaired + RepairAll(refer[i..], conf).0
      invariant RepairAll(refer, conf).1 <==> hasNew || RepairAll(refer[i..], conf).1
    {
      RepairAllSplits(refer, conf, i);
      assert WellFormed(refer[i].value);
      var value, isNew := CheckValue(refer[i].value, Find(conf, refer[i].key));
      repaired := repaired + [Field(refer[i].key, value)];
      hasNew := hasNew || isNew;
    }
    assert refer[|refer|..] == [] && RepairAll([], conf) == ([], false) && repaired + [] == repaired;
    assert (repaired, hasNew) == RepairAll(refer, conf);
    var extra := false;
    for i := 0 to |conf|
      invariant extra <==> exists j :: 0 <= j < i && !Has(refer, conf[j].key)
    {
      if !Has(refer, conf[i].key) {
        extra := true;
      }
    }
    hasNew := hasNew || extra || Keys(conf) != Keys(repaired);
  }

  method CheckValue(refer: Json, found: Option<Json>) returns (value: Json, isNew: bool)
    requires WellFormed(refer)
    ensures (value, isNew) == RepairValue(refer, found)
    decreases refer
  {
    if found == None || found == Some(Null) {
      return refer, true;
    } else if refer.Obj? {
      if !found.value.Obj? {
        return refer, true;
      }
      var child, childNew := CheckConfigIntegrity(refer.fields, found.value.fields);
      return Obj(child), childNew;
    } else {
      return found.value, false;
    }
  }

  // ---------------------------------------------------------------- shape

  /** The same keys in the same order at every dict level of the reference. */
  ghost predicate SameShape(refer: Fields, fs: Fields)
    decreases refer
  {
    |refer| == |fs| &&
    forall i :: 0 <= i < |refer| ==>
      refer[i].key == fs[i].key &&
      (refer[i].value.Obj? ==> fs[i].value.Obj? && SameShape(refer[i].value.fields, fs[i].value.fields))
  }

  lemma {:induction false} SameShapeReflexive(refer: Fields)
    ensures SameShape(refer, refer)
  {
    forall i | 0 <= i < |refer| && refer[i].value.Obj?
      ensures SameShape(refer[i].value.fields, refer[i].value.fields)
    {
      SameShapeReflexive(refer[i].value.fields);
    }
  }

  lemma {:induction false} RepairAllAt(refer: Fields, conf: Fields, i: nat)
    requires i < |refer|
    ensures RepairAll(refer, conf).0[i] == Field(refer[i].key, RepairValue(refer[i].value, Find(conf, refer[i].key)).0)
    ensures RepairValue(refer[i].value, Find(conf, refer[i].key)).1 ==> RepairAll(refer, conf).1
  {
    if i > 0 {
      RepairAllAt(refer[1..], conf, i - 1);
    }
  }

  lemma {:induction false} RepairAllNew(refer: Fields, conf: Fields)
    requires RepairAll(refer, conf).1
    ensures exists i :: 0 <= i < |refer| && RepairValue(refer[i].value, Find(conf, refer[i].key)).1
  {
    if !RepairValue(refer[0].value, Find(conf, refer[0].key)).1 {
      RepairAllNew(refer[1..], conf);
      var i :| 0 <= i < |refer[1..]| && RepairValue(refer[1..][i].value, Find(conf, refer[1..][i].key)).1;
      assert refer[1..][i] == refer[i + 1];
    }
  }

  lemma {:induction false} RepairShapes(refer: Fields, conf: Fields)
    ensures SameShape(refer, Repair(refer, conf).0)
    decreases refer
  {
    var r := Repair(refer, conf).0;
    forall i | 0 <= i < |refer|
      ensures refer[i].key == r[i].key
      ensures refer[i].value.Obj? ==> r[i].value.Obj? && SameShape(refer[i].value.fields, r[i].value.fields)
    {
      RepairAllAt(refer, conf, i);
      var found := Find(conf, refer[i].key);
      if refer[i].value.Obj? {
        if found.Some? && found.value.Obj? {
          RepairShapes(refer[i].value.fields, found.value.fields);
        } else {
          SameShapeReflexive(refer[i].value.fields);
        }
      }
    }
  }

  // ---------------------------------------------------------------- values

  /** The value at a path of keys, if every step but the last leads through a dict. */
  ghost function At(fs: Fields, path: seq<string>): Option<Json>
    requires path != []
    decreases path
  {
    var v := Find(fs, path[0]);
    if |path| == 1 then v
    else if v.Some? && v.value.Obj? then At(v.value.fields, path[1..])
    else None
  }

  lemma SameKeysUnique(refer: Fields, fs: Fields)
    requires UniqueKeys(refer) && |refer| == |fs| && forall i :: 0 <= i < |refer| ==> refer[i].key == fs[i].key
    ensures UniqueKeys(fs)
  {
  }

  lemma FindRepaired(refer: Fields, conf: Fields, key: string)
    requires UniqueKeys(refer)
    ensures Find(Repair(refer, conf).0, key).Some? <==> Find(refer, key).Some?
    ensures Find(refer, key).Some? ==>
              Find(Repair(refer, conf).0, key) == Some(RepairValue(Find(refer, key).value, Find(conf, key)).0)
  {
    var r := Repair(refer, conf).0;
    forall i | 0 <= i < |refer| ensures r[i].key == refer[i].key {
      RepairAllAt(refer, conf, i);
    }
    SameKeysUnique(refer, r);
    FindHas(refer, key);
    FindHas(r, key);
    if Find(refer, key).Some? {
      var i := FindMember(refer, key);
      RepairAllAt(refer, conf, i);
      FindAt(r, i);
      assert Has(r, key);
    } else {
      forall i | 0 <= i < |r| ensures r[i].key != key {
        assert refer[i].key == r[i].key;
      }
    }
  }

  /** Where the reference has a plain value, the result keeps the configured value if there is a
      non-null one, and otherwise takes the default; where the reference has a dict, so does the
      result. */
  lemma {:induction false} RepairKeeps(refer: Fields, conf: Fields, path: seq<string>)
    requires WellFormedFields(refer) && path != []
    ensures var result, default, configured := At(Repair(refer, conf).0, path), At(refer, path), At(conf, path);
            (default.Some? && !default.value.Obj? ==>
              result == if configured.Some? && configured.value != Null then configured else default) &&
            (default.Some? && default.value.Obj? ==>
              result.Some? && result.value.Obj?)
    decreases path
  {
    FindRepaired(refer, conf, path[0]);
    var default := Find(refer, path[0]);
    if default.Some? {
      var found := Find(conf, path[0]);
      var i := FindMember(refer, path[0]);
      assert WellFormed(refer[i].value);
      if |path| > 1 && default.value.Obj? && found.Some? && found.value.Obj? {
        RepairKeeps(default.value.fields, found.value.fields, path[1..]);
      }
    }
  }

  // ---------------------------------------------------------------- the change flag

  /** Some reference default is null and the configuration holds that very null. */
  ghost predicate StuckNull(refer: Fields, conf: Fields)
    decreases refer
  {
    exists i :: 0 <= i < |refer| && StuckNullValue(refer[i].value, Find(conf, refer[i].key))
  }

  ghost predicate StuckNullValue(refer: Json, found: Option<Json>)
    decreases refer
  {
    found.Some? &&
    ((refer == Null && found.value == Null) ||
     (refer.Obj? && found.value.Obj? && StuckNull(refer.fields, found.value.fields)))
  }

  lemma {:induction false} ValueFlag(refer: Json, v: Json)
    requires WellFormed(refer) && WellFormed(v)
    ensures RepairValue(refer, Some(v)).1 <==> RepairValue(refer, Some(v)).0 != v || StuckNullValue(refer, Some(v))
    decreases refer, 0
  {
    if refer.Obj? && v.Obj? {
      FlagIffChanged(refer.fields, v.fields);
    }
  }

  /** The flag is set exactly when the configuration changed, in content or in order, or when a
      null default met a configured null. */
  lemma {:induction false} FlagIffChanged(refer: Fields, conf: Fields)
    requires WellFormedFields(refer) && WellFormedFields(conf)
    ensures Repair(refer, conf).1 <==> Repair(refer, conf).0 != conf || StuckNull(refer, conf)
    decreases refer, 1
  {
    var r := Repair(refer, conf).0;
    if Keys(conf) != Keys(r) {
      assert r != conf;
    } else {
      SameOrder(refer, conf);
      forall i | 0 <= i < |refer|
        ensures RepairValue(refer[i].value, Some(conf[i].value)).1 <==>
                r[i] != conf[i] || StuckNullValue(refer[i].value, Some(conf[i].value))
      {
        RepairAllAt(refer, conf, i);
        assert WellFormed(refer[i].value) && WellFormed(conf[i].value);
        ValueFlag(refer[i].value, conf[i].value);
      }
      SameOrderFlag(refer, conf);
      SameOrderStuck(refer, conf);
    }
  }

  ghost predicate Aligned(refer: Fields, conf: Fields) {
    |refer| == |conf| &&
    forall i :: 0 <= i < |refer| ==> conf[i].key == refer[i].key && Find(conf, refer[i].key) == Some(conf[i].value)
  }

  lemma SameOrder(refer: Fields, conf: Fields)
    requires UniqueKeys(conf) && Keys(conf) == Keys(Repair(refer, conf).0)
    ensures Aligned(refer, conf)
  {
    var r := Repair(refer, conf).0;
    assert |conf| == |refer| by { assert |Keys(conf)| == |Keys(r)|; }
    forall i | 0 <= i < |refer|
      ensures conf[i].key == refer[i].key && Find(conf, refer[i].key) == Some(conf[i].value)
    {
      assert Keys(conf)[i] == Keys(r)[i];
      RepairAllAt(refer, conf, i);
      FindAt(conf, i);
    }
  }

  /** With the keys already in order, the flag is that of some value. */
  lemma SameOrderFlag(refer: Fields, conf: Fields)
    requires Aligned(refer, conf) && Keys(conf) == Keys(Repair(refer, conf).0)
    ensures Repair(refer, conf).1
       <==> exists i :: 0 <= i < |refer| && RepairValue(refer[i].value, Some(conf[i].value)).1
  {
    forall i | 0 <= i < |conf| ensures Has(refer, conf[i].key) {
      assert refer[i].key == conf[i].key;
    }
    if RepairAll(refer, conf).1 {
      RepairAllNew(refer, conf);
      var i :| 0 <= i < |refer| && RepairValue(refer[i].value, Find(conf, refer[i].key)).1;
      assert RepairValue(refer[i].value, Some(conf[i].value)).1;
    }
    if i :| 0 <= i < |refer| && RepairValue(refer[i].value, Some(conf[i].value)).1 {
      RepairAllAt(refer, conf, i);
    }
  }

  lemma SameOrderStuck(refer: Fields, conf: Fields)
    requires Aligned(refer, conf)
    ensures StuckNull(refer, conf)
       <==> exists i :: 0 <= i < |refer| && StuckNullValue(refer[i].value, Some(conf[i].value))
  {
    if i :| 0 <= i < |refer| && StuckNullValue(refer[i].value, Some(conf[i].value)) {
      assert StuckNullValue(refer[i].value, Find(conf, refer[i].key));
    }
  }

  // ---------------------------------------------------------------- repairing twice

  ghost predicate NullFree(refer: Fields)
    decreases refer
  {
    forall i :: 0 <= i < |refer| ==> refer[i].value != Null && (refer[i].value.Obj? ==> NullFree(refer[i].value.fields))
  }

  lemma {:induction false} NullFreeNeverStuck(refer: Fields, conf: Fields)
    requires NullFree(refer)
    ensures !StuckNull(refer, conf)
    decreases refer
  {
    if StuckNull(refer, conf) {
      var i :| 0 <= i < |refer| && StuckNullValue(refer[i].value, Find(conf, refer[i].key));
      NullFreeNeverStuck(refer[i].value.fields, Find(conf, refer[i].key).value.fields);
    }
  }

  lemma {:induction false} RepairDefault(refer: Fields)
    requires WellFormedFields(refer)
    ensures Repair(refer, refer).0 == refer
    decreases refer
  {
    forall i | 0 <= i < |refer| ensures Repair(refer, refer).0[i] == refer[i] {
      RepairAllAt(refer, refer, i);
      FindAt(refer, i);
      assert WellFormed(refer[i].value);
      if refer[i].value.Obj? {
        RepairDefault(refer[i].value.fields);
      }
    }
  }

  /** Repairing twice gives what repairing once gave. */
  lemma {:induction false} RepairIdempotent(refer: Fields, conf: Fields)
    requires WellFormedFields(refer)
    ensures Repair(refer, Repair(refer, conf).0).0 == Repair(refer, conf).0
    decreases refer
  {
    var once := Repair(refer, conf).0;
    var twice := Repair(refer, once).0;
    forall i | 0 <= i < |refer| ensures twice[i] == once[i] {
      RepairAllAt(refer, conf, i);
      RepairAllAt(refer, once, i);
      FindAt(refer, i);
      FindRepaired(refer, conf, refer[i].key);
      assert WellFormed(refer[i].value);
      var found := Find(conf, refer[i].key);
      if refer[i].value.Obj? {
        if found.Some? && found.value.Obj? {
          RepairIdempotent(refer[i].value.fields, found.value.fields);
        } else {
          RepairDefault(refer[i].value.fields);
        }
      }
    }
  }

  lemma {:induction false} RepairWellFormed(refer: Fields, conf: Fields)
    requires WellFormedFields(refer) && WellFormedFields(conf)
    ensures WellFormedFields(Repair(refer, conf).0)
    decreases refer
  {
    var r := Repair(refer, conf).0;
    forall i | 0 <= i < |refer| ensures r[i].key == refer[i].key && WellFormed(r[i].value) {
      RepairAllAt(refer, conf, i);
      assert WellFormed(refer[i].value);
      var found := Find(conf, refer[i].key);
      if found.Some? {
        var j := FindMember(conf, refer[i].key);
        assert WellFormed(conf[j].value);
        if refer[i].value.Obj? && found.value.Obj? {
          RepairWellFormed(refer[i].value.fields, found.value.fields);
        }
      }
    }
    SameKeysUnique(refer, r);
  }

  /** A second run reports a change iff the first one left a null in place of a null default;
      with null-free defaults it never does. */
  lemma SecondRunFlag(refer: Fields, conf: Fields)
    requires WellFormedFields(refer) && WellFormedFields(conf)
    ensures var once := Repair(refer, conf).0;
            Repair(refer, once).1 <==> StuckNull(refer, once)
    ensures NullFree(refer) ==> !Repair(refer, Repair(refer, conf).0).1
  {
    RepairWellFormed(refer, conf);
    RepairIdempotent(refer, conf);
    var once := Repair(refer, conf).0;
    FlagIffChanged(refer, once);
    if NullFree(refer) {
      NullFreeNeverStuck(refer, once);
    }
  }

  /** With null-free defaults the flag means exactly "something changed". */
  lemma FlagForNullFree(refer: Fields, conf: Fields)
    requires WellFormedFields(refer) && WellFormedFields(conf) && NullFree(refer)
    ensures Repair(refer, conf).1 <==> Repair(refer, conf).0 != conf
  {
    FlagIffChanged(refer, conf);
    NullFreeNeverStuck(refer, conf);
  }

  /** A null default makes an unchanged configuration look changed on every run. */
  lemma NullDefaultAlwaysReported()
    ensures var conf := [Field("limit", Null)];
            WellFormedFields(conf) && Repair(conf, conf) == (conf, true)
  {
    var conf := [Field("limit", Null)];
    RepairDefault(conf);
    RepairAllAt(conf, conf, 0);
    assert Find(conf, "limit") == Some(Null);
  }
}

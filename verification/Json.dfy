/** JSON-like values.  A dict is an ordered list of key/value pairs, since the original's dicts
    keep insertion order and are written out in that order. */
module Json {
  import opened Text

  datatype Json = Null | Bool(b: bool) | Num(n: real) | Str(s: string) | Arr(items: seq<Json>) | Obj(fields: Fields)

  datatype Field = Field(key: string, value: Json)

  type Fields = seq<Field>

  ghost predicate UniqueKeys(fs: Fields) {
    forall i, j :: 0 <= i < j < |fs| ==> fs[i].key != fs[j].key
  }

  /** Every dict of the tree has distinct keys. */
  ghost predicate WellFormed(j: Json) {
    match j
    case Obj(fs) => WellFormedFields(fs)
    case Arr(items) => forall i :: 0 <= i < |items| ==> WellFormed(items[i])
    case _ => true
  }

  ghost predicate WellFormedFields(fs: Fields) {
    UniqueKeys(fs) && forall i :: 0 <= i < |fs| ==> WellFormed(fs[i].value)
  }

  predicate Has(fs: Fields, key: string) {
    exists i :: 0 <= i < |fs| && fs[i].key == key
  }

  /** `d.get(key)`, telling a missing key from a null value. */
  function Find(fs: Fields, key: string): Option<Json> {
    if fs == [] then None
    else if fs[0].key == key then Some(fs[0].value)
    else Find(fs[1..], key)
  }

  lemma {:induction false} FindHas(fs: Fields, key: string)
    ensures Find(fs, key).Some? <==> Has(fs, key)
  {
    if fs != [] {
      HasTail(fs, key);
      FindHas(fs[1..], key);
    }
  }

  lemma {:induction false} FindMember(fs: Fields, key: string) returns (i: nat)
    requires Find(fs, key).Some?
    ensures i < |fs| && fs[i] == Field(key, Find(fs, key).value)
  {
    if fs[0].key == key {
      i := 0;
    } else {
      i := FindMember(fs[1..], key);
      i := i + 1;
    }
  }

  lemma {:induction false} FindAt(fs: Fields, i: nat)
    requires UniqueKeys(fs) && i < |fs|
    ensures Find(fs, fs[i].key) == Some(fs[i].value)
  {
    if i > 0 {
      assert fs[0].key != fs[i].key;
      FindAt(fs[1..], i - 1);
    }
  }

  /** `d[key] = value`: an existing key keeps its place, a new one goes last. */
  function Put(fs: Fields, key: string, value: Json): Fields {
    if fs == [] then [Field(key, value)]
    else if fs[0].key == key then [Field(key, value)] + fs[1..]
    else [fs[0]] + Put(fs[1..], key, value)
  }

  function Keys(fs: Fields): seq<string> {
    seq(|fs|, i requires 0 <= i < |fs| => fs[i].key)
  }

  lemma KeysCons(first: Field, rest: Fields)
    ensures Keys([first] + rest) == [first.key] + Keys(rest)
  {
  }

  lemma {:induction false} PutKeys(fs: Fields, key: string, value: Json)
    ensures Keys(Put(fs, key, value)) == if Has(fs, key) then Keys(fs) else Keys(fs) + [key]
  {
    if fs == [] {
      KeysCons(Field(key, value), []);
    } else {
      HasTail(fs, key);
      KeysCons(fs[0], fs[1..]);
      assert fs == [fs[0]] + fs[1..];
      if fs[0].key == key {
        KeysCons(Field(key, value), fs[1..]);
      } else {
        PutKeys(fs[1..], key, value);
        KeysCons(fs[0], Put(fs[1..], key, value));
      }
    }
  }

  lemma PutUnique(fs: Fields, key: string, value: Json)
    requires UniqueKeys(fs)
    ensures UniqueKeys(Put(fs, key, value))
  {
    PutKeys(fs, key, value);
    KeysDistinct(fs);
    KeysDistinct(Put(fs, key, value));
    if !Has(fs, key) {
      assert forall i :: 0 <= i < |fs| ==> Keys(fs)[i] != key;
    }
  }

  lemma KeysDistinct(fs: Fields)
    ensures UniqueKeys(fs) <==> forall i, j :: 0 <= i < j < |Keys(fs)| ==> Keys(fs)[i] != Keys(fs)[j]
  {
    if UniqueKeys(fs) {
    } else {
      var i, j :| 0 <= i < j < |fs| && fs[i].key == fs[j].key;
      assert Keys(fs)[i] == Keys(fs)[j];
    }
  }

  lemma {:induction false} PutFind(fs: Fields, key: string, value: Json, other: string)
    ensures Find(Put(fs, key, value), other) == if other == key then Some(value) else Find(fs, other)
  {
    if fs != [] && fs[0].key != key {
      PutFind(fs[1..], key, value, other);
      assert Put(fs, key, value)[1..] == Put(fs[1..], key, value);
    } else if fs != [] {
      assert Put(fs, key, value)[1..] == fs[1..];
    }
  }

  /** `d.update(more)`. */
  function Merge(fs: Fields, more: Fields): Fields
    decreases more
  {
    if more == [] then fs else Merge(Put(fs, more[0].key, more[0].value), more[1..])
  }

  /** A merged dict maps each key as `more` does, and otherwise as it did. */
  lemma {:induction false} MergeFind(fs: Fields, more: Fields, key: string)
    requires UniqueKeys(more)
    ensures Find(Merge(fs, more), key) == if Has(more, key) then Find(more, key) else Find(fs, key)
    decreases more
  {
    if more != [] {
      var put := Put(fs, more[0].key, more[0].value);
      PutFind(fs, more[0].key, more[0].value, key);
      MergeFind(put, more[1..], key);
      forall i | 0 <= i < |more[1..]| ensures more[1..][i].key != more[0].key {
        assert more[1..][i] == more[i + 1];
      }
      HasTail(more, key);
    }
  }

  lemma HasTail(fs: Fields, key: string)
    requires fs != []
    ensures Has(fs, key) <==> fs[0].key == key || Has(fs[1..], key)
  {
    if Has(fs, key) && fs[0].key != key {
      var i :| 0 <= i < |fs| && fs[i].key == key;
      assert fs[1..][i - 1].key == key;
    }
    if Has(fs[1..], key) {
      var i :| 0 <= i < |fs[1..]| && fs[1..][i].key == key;
      assert fs[i + 1].key == key;
    }
  }

  /** `d.pop(key, None)`. */
  function Remove(fs: Fields, key: string): Fields {
    if fs == [] then []
    else if fs[0].key == key then fs[1..]
    else [fs[0]] + Remove(fs[1..], key)
  }

  lemma {:induction false} RemoveFind(fs: Fields, key: string, other: string)
    requires UniqueKeys(fs)
    ensures Find(Remove(fs, key), other) == if other == key then None else Find(fs, other)
  {
    if fs != [] {
      if fs[0].key == key {
        forall i | 0 <= i < |fs[1..]| ensures fs[1..][i].key != key {
          assert fs[1..][i] == fs[i + 1];
        }
        FindHas(fs[1..], key);
      } else {
        RemoveFind(fs[1..], key, other);
        assert Remove(fs, key)[1..] == Remove(fs[1..], key);
      }
    }
  }

  /** Removing a key keeps the other entries, in their order. */
  lemma {:induction false} RemoveEntries(fs: Fields, key: string)
    ensures forall f :: f in Remove(fs, key) ==> f in fs
    ensures UniqueKeys(fs) ==> UniqueKeys(Remove(fs, key))
  {
    if fs != [] && fs[0].key != key {
      RemoveEntries(fs[1..], key);
      if UniqueKeys(fs) {
        forall j | 0 <= j < |Remove(fs[1..], key)| ensures Remove(fs[1..], key)[j].key != fs[0].key {
          var f := Remove(fs[1..], key)[j];
          assert f in fs[1..];
          var i :| 0 <= i < |fs[1..]| && fs[1..][i] == f;
          assert fs[i + 1] == f;
        }
      }
    }
  }

  lemma {:induction false} RemoveAbsent(fs: Fields, key: string)
    requires !Has(fs, key)
    ensures Remove(fs, key) == fs
  {
    if fs != [] {
      HasTail(fs, key);
      assert fs[0].key != key;
      RemoveAbsent(fs[1..], key);
    }
  }

  lemma {:induction false} PutSame(fs: Fields, key: string)
    requires Find(fs, key).Some?
    ensures Put(fs, key, Find(fs, key).value) == fs
  {
    if fs[0].key != key {
      HasTail(fs, key);
      PutSame(fs[1..], key);
    }
  }

  lemma {:induction false} PutEntries(fs: Fields, key: string, value: Json)
    ensures forall f :: f in Put(fs, key, value) ==> f in fs || f == Field(key, value)
  {
    if fs != [] && fs[0].key != key {
      PutEntries(fs[1..], key, value);
    }
  }
}

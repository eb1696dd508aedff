/**
 * The configuration store and the upsert loop of `update_configuration`:
 * for each update in order, the first document with that field gets the new
 * value, or a new document is appended when there is none.
 */
module Configuration {
  import opened Wrappers

  /** The fields an update may name. */
  datatype ConfigField = NameField | DescriptionField

  function FieldKey(f: ConfigField): string {
    match f
    case NameField => "name"
    case DescriptionField => "description"
  }

  /** The field named by a token of an update body; anything but the two names is refused. */
  function ParseField(s: string): (r: Option<ConfigField>)
    ensures r.Some? ==> FieldKey(r.value) == s
    ensures r.None? ==> forall f: ConfigField :: FieldKey(f) != s
  {
    if s == "name" then Some(NameField)
    else if s == "description" then Some(DescriptionField)
    else None
  }

  /** A stored value: text, or a list of texts. */
  datatype ConfigValue = Text(text: string) | TextList(items: seq<string>)

  /** One stored document. Documents written elsewhere may carry other fields, such as `genres`. */
  datatype ConfigDoc = ConfigDoc(field: string, value: ConfigValue)

  datatype ConfigUpdate = ConfigUpdate(field: ConfigField, value: string)

  /** Index of the first document with field `key`, as a find-one query returns it. */
  function FindFirst(docs: seq<ConfigDoc>, key: string): (r: Option<nat>)
    ensures r.Some? ==> r.value < |docs| && docs[r.value].field == key
    ensures r.Some? ==> forall j :: 0 <= j < r.value ==> docs[j].field != key
    ensures r.None? ==> forall j :: 0 <= j < |docs| ==> docs[j].field != key
    decreases |docs|
  {
    if docs == [] then None
    else if docs[0].field == key then Some(0)
    else match FindFirst(docs[1..], key)
      case None => None
      case Some(i) => Some(i + 1)
  }

  /** The value a read of `key` sees. */
  function Lookup(docs: seq<ConfigDoc>, key: string): (r: Option<ConfigValue>)
    ensures r.None? <==> forall j :: 0 <= j < |docs| ==> docs[j].field != key
    ensures r.Some? ==> exists j :: 0 <= j < |docs| && docs[j] == ConfigDoc(key, r.value) &&
                                   forall i :: 0 <= i < j ==> docs[i].field != key
  {
    match FindFirst(docs, key)
    case None => None
    case Some(i) => Some(docs[i].value)
  }

  /** One pass of the loop body: set the first match, or insert. */
  function UpsertOne(docs: seq<ConfigDoc>, u: ConfigUpdate): (r: seq<ConfigDoc>)
    ensures FindFirst(docs, FieldKey(u.field)).Some? ==> |r| == |docs|
    ensures FindFirst(docs, FieldKey(u.field)).None? ==> r == docs + [ConfigDoc(FieldKey(u.field), Text(u.value))]
    ensures forall j :: 0 <= j < |docs| ==> r[j].field == docs[j].field
    ensures forall j :: 0 <= j < |docs| && Some(j) != FindFirst(docs, FieldKey(u.field)) ==> r[j] == docs[j]
  {
    var key := FieldKey(u.field);
    match FindFirst(docs, key)
    case Some(i) => docs[i := ConfigDoc(key, Text(u.value))]
    case None => docs + [ConfigDoc(key, Text(u.value))]
  }

  /**
   * The whole loop: the updates applied in list order. Documents are never
   * removed or reordered, and at most one is added per update.
   */
  function UpsertAll(docs: seq<ConfigDoc>, updates: seq<ConfigUpdate>): (r: seq<ConfigDoc>)
    ensures |docs| <= |r| <= |docs| + |updates|
    ensures forall j :: 0 <= j < |docs| ==> r[j].field == docs[j].field
    decreases |updates|
  {
    if updates == [] then docs
    else UpsertOne(UpsertAll(docs, updates[..|updates| - 1]), updates[|updates| - 1])
  }

  /** The value of the last update naming `key`, if any does. */
  function LastValue(updates: seq<ConfigUpdate>, key: string): Option<string>
    decreases |updates|
  {
    if updates == [] then None
    else if FieldKey(updates[|updates| - 1].field) == key then Some(updates[|updates| - 1].value)
    else LastValue(updates[..|updates| - 1], key)
  }

  lemma LookupAfterUpsertOne(docs: seq<ConfigDoc>, u: ConfigUpdate, key: string)
    ensures Lookup(UpsertOne(docs, u), key) ==
      if key == FieldKey(u.field) then Some(Text(u.value)) else Lookup(docs, key)
  {
    var r := UpsertOne(docs, u);
    var f := FindFirst(r, key);
    var g := FindFirst(docs, key);
    if key != FieldKey(u.field) {
      if g.Some? {
        assert f.Some? && f.value <= g.value;
      }
    } else {
      if g.Some? {
        assert f == g;
      } else {
        assert r[|docs|].field == key;
        assert f == Some(|docs|);
      }
    }
  }

  /**
   * After the loop, a read of a field named in the updates sees the value of
   * its last occurrence, and a read of any other field sees what it saw before.
   */
  lemma {:induction false} LookupAfterUpsertAll(docs: seq<ConfigDoc>, updates: seq<ConfigUpdate>, key: string)
    ensures Lookup(UpsertAll(docs, updates), key) ==
      match LastValue(updates, key)
      case Some(v) => Some(Text(v))
      case None => Lookup(docs, key)
    decreases |updates|
  {
    if updates != [] {
      var init := updates[..|updates| - 1];
      LookupAfterUpsertAll(docs, init, key);
      LookupAfterUpsertOne(UpsertAll(docs, init), updates[|updates| - 1], key);
    }
  }

  /** Document `i` is the first one carrying its field. */
  predicate IsFirst(docs: seq<ConfigDoc>, i: nat)
    requires i < |docs|
  {
    FindFirst(docs, docs[i].field) == Some(i)
  }

  /** The documents with every first match of a named field set to its last value. */
  function Overwrite(docs: seq<ConfigDoc>, updates: seq<ConfigUpdate>): (r: seq<ConfigDoc>)
    ensures |r| == |docs|
  {
    seq(|docs|, i requires 0 <= i < |docs| =>
      if IsFirst(docs, i) && LastValue(updates, docs[i].field).Some? then
        ConfigDoc(docs[i].field, Text(LastValue(updates, docs[i].field).value))
      else docs[i])
  }

  /** When every named field is already stored, the loop only overwrites first matches. */
  lemma {:induction false} UpsertAllWhenAllPresent(docs: seq<ConfigDoc>, updates: seq<ConfigUpdate>)
    requires forall u :: u in updates ==> FindFirst(docs, FieldKey(u.field)).Some?
    ensures UpsertAll(docs, updates) == Overwrite(docs, updates)
    decreases |updates|
  {
    if updates != [] {
      var init := updates[..|updates| - 1];
      var last := updates[|updates| - 1];
      UpsertAllWhenAllPresent(docs, init);
      var e := Overwrite(docs, init);
      var key := FieldKey(last.field);
      var k := FindFirst(docs, key).value;
      assert FindFirst(e, key) == Some(k) by {
        FindFirstSameFields(docs, e, key);
      }
      var r := UpsertOne(e, last);
      var o := Overwrite(docs, updates);
      forall i | 0 <= i < |docs| ensures r[i] == o[i] {
        FindFirstSameFields(docs, e, docs[i].field);
      }
    }
  }

  lemma {:induction false} FindFirstSameFields(a: seq<ConfigDoc>, b: seq<ConfigDoc>, key: string)
    requires |a| == |b|
    requires forall j :: 0 <= j < |a| ==> a[j].field == b[j].field
    ensures FindFirst(a, key) == FindFirst(b, key)
    decreases |a|
  {
    if a != [] {
      FindFirstSameFields(a[1..], b[1..], key);
    }
  }

  /** Sending the same list of updates twice leaves the store as sending it once. */
  lemma UpsertAllIdempotent(docs: seq<ConfigDoc>, updates: seq<ConfigUpdate>)
    ensures UpsertAll(UpsertAll(docs, updates), updates) == UpsertAll(docs, updates)
  {
    var e := UpsertAll(docs, updates);
    forall u | u in updates ensures FindFirst(e, FieldKey(u.field)).Some? {
      LookupAfterUpsertAll(docs, updates, FieldKey(u.field));
      LastValueSome(updates, u);
    }
    UpsertAllWhenAllPresent(e, updates);
    forall i | 0 <= i < |e| ensures Overwrite(e, updates)[i] == e[i] {
      LookupAfterUpsertAll(docs, updates, e[i].field);
    }
  }

  lemma {:induction false} LastValueSome(updates: seq<ConfigUpdate>, u: ConfigUpdate)
    requires u in updates
    ensures LastValue(updates, FieldKey(u.field)).Some?
    decreases |updates|
  {
    var init := updates[..|updates| - 1];
    if updates[|updates| - 1] != u {
      assert u in init by {
        var i :| 0 <= i < |updates| && updates[i] == u;
        assert init[i] == u;
      }
      LastValueSome(init, u);
    }
  }

  /** The stored configuration documents. */
  class ConfigStore {
    var docs: seq<ConfigDoc>

    constructor (docs: seq<ConfigDoc>)
      ensures this.docs == docs
    {
      this.docs := docs;
    }

    /** The loop of `update_configuration`: each update sets the first match or inserts. */
    method UpdateConfiguration(updates: seq<ConfigUpdate>)
      modifies this
      ensures docs == UpsertAll(old(docs), updates)
    {
      for i := 0 to |updates|
        invariant docs == UpsertAll(old(docs), updates[..i])
      {
        assert updates[..i + 1][..i] == updates[..i];
        var key := FieldKey(updates[i].field);
        var existing := FindFirst(docs, key);
        if existing.Some? {
          docs := docs[existing.value := ConfigDoc(key, Text(updates[i].value))];
        } else {
          docs := docs + [ConfigDoc(key, Text(updates[i].value))];
        }
      }
      assert updates[..|updates|] == updates;
    }
  }
}

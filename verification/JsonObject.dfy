/** JSON objects on top of the linked hash table: the ordered fields that the tokener builds. */
module JsonObject {
  import opened JsonValue
  import LinkHash
  import LinkHashSpec

  /** The fields of an object, as its table lists them. */
  ghost function FieldsOf(items: seq<(string, Value)>): seq<Field> {
    if items == [] then [] else [Field(items[0].0, items[0].1)] + FieldsOf(items[1..])
  }

  /** What the table does for json_object_object_add is the field list operation of the tokener. */
  lemma {:induction false} PutIsAddField(items: seq<(string, Value)>, key: string, value: Value)
    ensures FieldsOf(LinkHash.Put(items, key, value)) == AddField(FieldsOf(items), key, value)
  {
    if items != [] && items[0].0 != key {
      PutIsAddField(items[1..], key, value);
      var r := LinkHash.Put(items, key, value);
      assert r[0] == items[0] && r[1..] == LinkHash.Put(items[1..], key, value);
      assert FieldsOf(items)[1..] == FieldsOf(items[1..]);
    } else if items != [] {
      var r := LinkHash.Put(items, key, value);
      assert r[1..] == items[1..];
      assert FieldsOf(items)[1..] == FieldsOf(items[1..]);
    }
  }

  /** json_object_object_add. */
  method ObjectAdd(t: LinkHash.Table<string, Value>, key: string, value: Value)
    requires t.Valid()
    modifies t, t.table
    ensures t.Valid() && FieldsOf(t.Items()) == AddField(FieldsOf(old(t.Items())), key, value)
  {
    hide FieldsOf, AddField, LinkHash.Put, LinkHashSpec.Ok;
    PutIsAddField(t.Items(), key, value);
    t.Add(key, value);
  }
}

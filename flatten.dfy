/** Flattening a language document into collection-qualified entries
    (removeId, index.js:52-54; getData, index.js:109-111; and the key
    mapping of the Android and iOS emitters, index.js:143-144, 190-191). */
module Flatten {
  import opened Wrappers
  import opened Documents

  /** A flattened `{ key, value }` entry; its key is qualified by the collection. */
  type Entry = Field

  /** The qualified key `${collectionName}_${key}`. */
  function Qualified(collection: string, key: string): string {
    collection + "_" + key
  }

  /** removeId (index.js:52-54): the document without its `_id` property. */
  function RemoveId(d: Document): (r: Document)
    ensures !HasKey(r, "_id")
    ensures forall k :: k != "_id" ==> (HasKey(r, k) <==> HasKey(d, k))
    ensures |r| == if HasKey(d, "_id") then |d| - 1 else |d|
  {
    Without(d, "_id")
  }

  /** getData (index.js:109-111): `Object.keys(doc).filter(key => key !== '_id')`
      mapped to qualified entries. */
  /** Every entry is qualified by the collection, and none comes from `_id`. */
  function GetData(collection: string, d: seq<Field>): (r: seq<Entry>)
    ensures |r| <= |d|
    ensures forall i :: 0 <= i < |r| ==>
      collection + "_" <= r[i].key && r[i].key != Qualified(collection, "_id")
  {
    if d == [] then []
    else
      var rest := GetData(collection, d[1..]);
      if d[0].key == "_id" then rest
      else
        var q := Qualified(collection, d[0].key);
        assert q[|collection| + 1..] == d[0].key;
        assert Qualified(collection, "_id")[|collection| + 1..] == "_id";
        [Field(q, d[0].value)] + rest
  }

  /** `Object.keys(data).map(...)` of the emitters: one entry per property,
      each qualified by the collection. */
  function Qualify(collection: string, data: seq<Field>): (r: seq<Entry>)
    ensures |r| == |data|
    ensures forall i :: 0 <= i < |r| ==> collection + "_" <= r[i].key
  {
    if data == [] then []
    else [Field(Qualified(collection, data[0].key), data[0].value)] + Qualify(collection, data[1..])
  }

  /** Strips the `${collection}_` prefix off every key, if every key has it. */
  function Unqualify(collection: string, es: seq<Entry>): Option<seq<Field>> {
    var p := collection + "_";
    if es == [] then Some([])
    else if |es[0].key| < |p| || es[0].key[..|p|] != p then None
    else
      match Unqualify(collection, es[1..])
      case None => None
      case Some(rest) => Some([Field(es[0].key[|p|..], es[0].value)] + rest)
  }

  /** Entry `i` of the flattening is property `i` under its qualified key. */
  lemma {:induction false} QualifyAt(collection: string, data: seq<Field>, i: nat)
    requires i < |data|
    ensures |Qualify(collection, data)| == |data|
    ensures Qualify(collection, data)[i] == Field(Qualified(collection, data[i].key), data[i].value)
  {
    if i > 0 {
      QualifyAt(collection, data[1..], i - 1);
    } else if |data| > 1 {
      QualifyAt(collection, data[1..], 0);
    }
  }

  /** Qualifying loses nothing: the collection prefix comes off again. */
  lemma {:induction false} UnqualifyQualify(collection: string, data: seq<Field>)
    ensures Unqualify(collection, Qualify(collection, data)) == Some(data)
  {
    if data != [] {
      var es := Qualify(collection, data);
      var p := collection + "_";
      assert es[0].key == p + data[0].key;
      assert es[0].key[..|p|] == p && es[0].key[|p|..] == data[0].key;
      assert es[1..] == Qualify(collection, data[1..]);
      UnqualifyQualify(collection, data[1..]);
      assert [Field(data[0].key, data[0].value)] + data[1..] == data;
    }
  }

  /** The key-value path (getData) and the text path (removeId, then map)
      produce the same entries. */
  lemma {:induction false} GetDataIsQualifiedRemoveId(collection: string, d: Document)
    ensures GetData(collection, d) == Qualify(collection, RemoveId(d))
  {
    if d != [] {
      var tail: Document := d[1..];
      GetDataIsQualifiedRemoveId(collection, tail);
      assert RemoveId(d) == if d[0].key == "_id" then RemoveId(tail) else [d[0]] + RemoveId(tail);
    }
  }

  /** One collection never yields the same qualified key twice. */
  lemma QualifyDistinct(collection: string, d: Document)
    ensures DistinctKeys(Qualify(collection, d))
  {
    var es := Qualify(collection, d);
    if d != [] {
      QualifyAt(collection, d, 0);
    }
    forall i, j | 0 <= i < j < |es| ensures es[i].key != es[j].key {
      QualifyAt(collection, d, i);
      QualifyAt(collection, d, j);
      var p := collection + "_";
      assert d[i].key == es[i].key[|p|..];
      assert d[j].key == es[j].key[|p|..];
    }
  }

  /** Flattening yields one entry per property other than `_id`, and no
      entry for `_id`. */
  lemma GetDataSize(collection: string, d: Document)
    ensures |GetData(collection, d)| == if HasKey(d, "_id") then |d| - 1 else |d|
    ensures DistinctKeys(GetData(collection, d))
  {
    GetDataIsQualifiedRemoveId(collection, d);
    QualifyDistinct(collection, RemoveId(d));
    if RemoveId(d) != [] {
      QualifyAt(collection, RemoveId(d), 0);
    }
  }
}

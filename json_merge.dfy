/** The merge of the web exporter (prepareContent, index.js:125-128): the
    flattened entries folded into one object with `{ ...acc, [key]: value }`. */
module JsonMerge {
  import opened Wrappers
  import opened Documents
  import opened Flatten

  /** The position of the first property named `k`. */
  function IndexOf(fs: seq<Field>, k: string): (i: nat)
    requires HasKey(fs, k)
    ensures i < |fs| && fs[i].key == k
    ensures forall j :: 0 <= j < i ==> fs[j].key != k
  {
    if fs[0].key == k then 0
    else
      assert HasKey(fs[1..], k) by {
        var i :| 0 <= i < |fs| && fs[i].key == k;
        assert fs[1..][i - 1].key == k;
      }
      1 + IndexOf(fs[1..], k)
  }

  /** `{ ...acc, [key]: value }`: an existing key keeps its place and takes the
      new value, a new key is added last. */
  function Put(acc: Document, e: Entry): (r: Document)
    ensures |r| == if HasKey(acc, e.key) then |acc| else |acc| + 1
    ensures forall i :: 0 <= i < |acc| ==> r[i].key == acc[i].key
    ensures !HasKey(acc, e.key) ==> r[|acc|] == e
  {
    if HasKey(acc, e.key) then
      var i := IndexOf(acc, e.key);
      var r := acc[i := e];
      assert DistinctKeys(r) by {
        forall a, b | 0 <= a < b < |r| ensures r[a].key != r[b].key {
          assert r[a].key == acc[a].key && r[b].key == acc[b].key;
        }
      }
      r
    else
      var r := acc + [e];
      assert DistinctKeys(r) by {
        forall a, b | 0 <= a < b < |r| ensures r[a].key != r[b].key {
          if b == |acc| {
            assert acc[a].key == r[a].key;
          }
        }
      }
      r
  }

  /** The merged object of `entries`, as `reduce` builds it from `{}`: at
      most one property per entry, and none exactly when there is no entry. */
  function Merge(entries: seq<Entry>): (r: Document)
    ensures |r| <= |entries|
    ensures r == [] <==> entries == []
  {
    if entries == [] then []
    else Put(Merge(entries[..|entries| - 1]), entries[|entries| - 1])
  }

  /** In a document, looking a present key up gives the value at its position. */
  lemma GetIndexOf(d: Document, k: string)
    requires HasKey(d, k)
    ensures Get(d, k) == Some(d[IndexOf(d, k)].value)
  {
    GetAt(d, IndexOf(d, k));
  }

  /** Reading a key back after `Put` gives the value just put; other keys
      keep their values. */
  lemma PutGet(acc: Document, e: Entry, k: string)
    ensures Get(Put(acc, e), k) == if k == e.key then Some(e.value) else Get(acc, k)
  {
    var r := Put(acc, e);
    var n := if HasKey(acc, e.key) then IndexOf(acc, e.key) else |acc|;
    assert r[n] == e;
    GetAt(r, n);
    if k != e.key {
      if HasKey(acc, k) {
        var i := IndexOf(acc, k);
        assert r[i] == acc[i];
        GetAt(r, i);
        GetAt(acc, i);
      } else {
        assert !HasKey(r, k);
      }
    }
  }

  /** The merged object has exactly the keys of the entries. */
  lemma {:induction false} MergeKeys(entries: seq<Entry>, k: string)
    ensures HasKey(Merge(entries), k) <==> HasKey(entries, k)
  {
    if entries != [] {
      var init := entries[..|entries| - 1];
      var e := entries[|entries| - 1];
      MergeKeys(init, k);
      PutGet(Merge(init), e, k);
      assert HasKey(entries, k) <==> HasKey(init, k) || e.key == k by {
        if HasKey(entries, k) && e.key != k {
          var i :| 0 <= i < |entries| && entries[i].key == k;
          assert init[i].key == k;
        }
        if HasKey(init, k) {
          var i :| 0 <= i < |init| && init[i].key == k;
          assert entries[i].key == k;
        }
        assert entries[|entries| - 1].key == e.key;
      }
    }
  }

  /** A later duplicate key wins: the merged value of a key is that of its
      last entry. */
  lemma {:induction false} MergeLastWins(entries: seq<Entry>, i: nat)
    requires i < |entries|
    requires forall j :: i < j < |entries| ==> entries[j].key != entries[i].key
    ensures Get(Merge(entries), entries[i].key) == Some(entries[i].value)
  {
    var init := entries[..|entries| - 1];
    var e := entries[|entries| - 1];
    PutGet(Merge(init), e, entries[i].key);
    if i < |entries| - 1 {
      assert init[i] == entries[i];
      MergeLastWins(init, i);
    }
  }

  /** A first occurrence in a prefix is a first occurrence in the whole. */
  lemma IndexOfPrefix(s: seq<Field>, t: seq<Field>, k: string)
    requires HasKey(s, k)
    ensures HasKey(s + t, k) && IndexOf(s + t, k) == IndexOf(s, k)
  {
    var i := IndexOf(s, k);
    assert (s + t)[i].key == k;
  }

  /** Keys keep the order of their first occurrence among the entries. */
  lemma {:induction false} MergeOrder(entries: seq<Entry>, a: nat, b: nat)
    requires a < b < |Merge(entries)|
    ensures HasKey(entries, Merge(entries)[a].key) && HasKey(entries, Merge(entries)[b].key)
    ensures IndexOf(entries, Merge(entries)[a].key) < IndexOf(entries, Merge(entries)[b].key)
  {
    var m := Merge(entries);
    assert m[a].key == m[a].key && m[b].key == m[b].key;
    MergeKeys(entries, m[a].key);
    MergeKeys(entries, m[b].key);
    var init := entries[..|entries| - 1];
    var e := entries[|entries| - 1];
    var prev := Merge(init);
    assert entries == init + [e];
    if HasKey(prev, e.key) {
      var n := IndexOf(prev, e.key);
      assert m == prev[n := e];
      assert m[a].key == prev[a].key && m[b].key == prev[b].key;
      MergeOrder(init, a, b);
      IndexOfPrefix(init, [e], prev[a].key);
      IndexOfPrefix(init, [e], prev[b].key);
    } else {
      assert m == prev + [e];
      assert m[a] == prev[a];
      MergeKeys(init, prev[a].key);
      IndexOfPrefix(init, [e], prev[a].key);
      if b < |prev| {
        assert m[b] == prev[b];
        MergeOrder(init, a, b);
        IndexOfPrefix(init, [e], prev[b].key);
      } else {
        MergeKeys(init, e.key);
        assert IndexOf(entries, e.key) == |init|;
      }
    }
  }

  /** Entries with distinct keys come out exactly as they went in. */
  lemma {:induction false} MergeDistinct(entries: seq<Entry>)
    requires DistinctKeys(entries)
    ensures Merge(entries) == entries
  {
    if entries != [] {
      var init := entries[..|entries| - 1];
      var e := entries[|entries| - 1];
      MergeDistinct(init);
      MergeKeys(init, e.key);
      assert !HasKey(init, e.key);
      assert init + [e] == entries;
    }
  }

  /** Flattening one document and merging it back gives the flattened
      entries unchanged: every qualified key once, with its value. */
  lemma MergeFlattened(collection: string, d: Document)
    ensures Merge(GetData(collection, d)) == GetData(collection, d)
  {
    GetDataSize(collection, d);
    MergeDistinct(GetData(collection, d));
  }

  /** Qualified keys of different collections can coincide (`a` + `b_c` and
      `a_b` + `c`); the merge then keeps only the later value. */
  lemma QualifiedKeysCollide(x: Value, y: Value)
    ensures Merge(GetData("a", [Field("b_c", x)]) + GetData("a_b", [Field("c", y)])) == [Field("a_b_c", y)]
  {
    var e1, e2 := Field("a_b_c", x), Field("a_b_c", y);
    assert GetData("a", [Field("b_c", x)]) == [e1] by {
      assert Qualified("a", "b_c") == "a_b_c";
      assert [Field("b_c", x)][1..] == [];
    }
    assert GetData("a_b", [Field("c", y)]) == [e2] by {
      assert Qualified("a_b", "c") == "a_b_c";
      assert [Field("c", y)][1..] == [];
    }
    var es := [e1, e2];
    assert es[..1] == [e1] && [e1][..0] == [];
    assert Merge([e1]) == [e1];
    var one: Document := [e1];
    assert HasKey(one, e2.key) && IndexOf(one, e2.key) == 0;
    assert Merge(es) == Put(one, e2) == [e2];
  }
}

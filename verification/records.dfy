/**
 A record assembled by `iter_rows` (app.py lines 10-19): a Python dict from
 normalised label to cell value. Python dicts remember insertion order, so a
 record is the sequence of its entries in the order they were inserted.
 */
module Records {
  import opened Wrappers

  datatype Entry = Entry(key: string, value: string)

  type Record = seq<Entry>

  /** The keys of a record, in insertion order. */
  function KeysOf(r: Record): (ks: seq<string>)
    ensures |ks| == |r|
    ensures forall i :: 0 <= i < |r| ==> ks[i] == r[i].key
  {
    seq(|r|, i requires 0 <= i < |r| => r[i].key)
  }

  /** `key in obj`. */
  predicate HasKey(r: Record, key: string) {
    key in KeysOf(r)
  }

  /** No key occurs twice: what a dict guarantees. */
  predicate DistinctKeys(r: Record) {
    forall i, j :: 0 <= i < j < |r| ==> r[i].key != r[j].key
  }

  /** The set of keys of a record. */
  function KeySet(r: Record): set<string>
  {
    set i | 0 <= i < |r| :: r[i].key
  }

  /** Inserting a fresh entry adds exactly its key. */
  lemma {:induction false} KeySetSnoc(r: Record, e: Entry)
    ensures KeySet(r + [e]) == KeySet(r) + {e.key}
  {
    forall k | k in KeySet(r + [e]) ensures k in KeySet(r) + {e.key} {
      var i :| 0 <= i < |r + [e]| && (r + [e])[i].key == k;
      if i < |r| {
        assert r[i].key in KeySet(r);
      }
    }
    forall k | k in KeySet(r) + {e.key} ensures k in KeySet(r + [e]) {
      if k == e.key {
        assert (r + [e])[|r|].key == k;
      } else {
        var i :| 0 <= i < |r| && r[i].key == k;
        assert (r + [e])[i].key == k;
      }
    }
  }

  /** `key in obj` is membership in the key set. */
  lemma {:induction false} HasKeyIffKeySet(r: Record, key: string)
    ensures HasKey(r, key) <==> key in KeySet(r)
  {
    if HasKey(r, key) {
      var i :| 0 <= i < |r| && KeysOf(r)[i] == key;
      assert r[i].key in KeySet(r);
    }
    if key in KeySet(r) {
      var i :| 0 <= i < |r| && r[i].key == key;
      assert KeysOf(r)[i] == key;
    }
  }

  /** `obj[key]` when present, `None` when the dict has no such key. */
  function Lookup(r: Record, key: string): (v: Option<string>)
    ensures v.Some? <==> HasKey(r, key)
    ensures v.Some? ==> Entry(key, v.value) in r
  {
    if r == [] then None
    else if r[0].key == key then Some(r[0].value)
    else
      var v := Lookup(r[1..], key);
      assert HasKey(r, key) <==> HasKey(r[1..], key) by {
        assert KeysOf(r) == [r[0].key] + KeysOf(r[1..]);
      }
      v
  }

  /** The entries of all records, one record after another. */
  function Flatten(rs: seq<Record>): Record
  {
    if rs == [] then [] else rs[0] + Flatten(rs[1..])
  }

}

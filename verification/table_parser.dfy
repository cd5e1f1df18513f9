/**
 The `iter_rows` generator (app.py lines 10-19). It walks the rows of an HTML
 table, each of which must hold exactly two cells, a label and a value. It
 normalises the label into a key and stores the pair in the dict under
 construction. When the key is already in that dict, it first yields the dict
 and starts a new one. After the last row it yields the final dict, even an
 empty one.

 The HTML itself is not modelled: a table is the sequence of its rows, and a
 row is the sequence of the strings of its cells.
 */
module TableParser {
  import opened Wrappers
  import opened Labels
  import opened Records

  /** One table row: the strings of its cells, in order. */
  type Row = seq<string>

  /** Unpacking `key, val = [...]` fails on a row whose cell count is not two. */
  datatype ParseError = MalformedRow(index: nat, cells: nat)

  /**
   What a caller draining the generator observes: the records it yielded, in
   order, and the error that stopped it, if one did.
   */
  datatype Trace = Trace(yielded: seq<Record>, halted: Option<ParseError>)

  predicate WellFormed(rows: seq<Row>) {
    forall i :: 0 <= i < |rows| ==> |rows[i]| == 2
  }

  function EntryOf(row: Row): Entry
    requires |row| == 2
  {
    Entry(Normalize(row[0]), row[1])
  }

  /** The normalised (key, value) pairs of well-formed rows. */
  function Entries(rows: seq<Row>): (es: Record)
    requires WellFormed(rows)
    ensures |es| == |rows|
    ensures forall i :: 0 <= i < |rows| ==> es[i] == EntryOf(rows[i])
  {
    seq(|rows|, i requires 0 <= i < |rows| => EntryOf(rows[i]))
  }

  /**
   The generator's loop from row `at` on, with `acc` the dict under
   construction: the control flow of app.py, row by row.
   */
  function Walk(rows: seq<Row>, at: nat, acc: Record): (t: Trace)
    requires at <= |rows|
    requires DistinctKeys(acc)
    decreases |rows| - at
    ensures t.halted.None? <==> (forall i :: at <= i < |rows| ==> |rows[i]| == 2)
    ensures t.halted.Some? ==>
      at <= t.halted.value.index < |rows| &&
      t.halted.value.cells == |rows[t.halted.value.index]| != 2 &&
      forall i :: at <= i < t.halted.value.index ==> |rows[i]| == 2
    ensures t.halted.None? ==> |t.yielded| >= 1
    ensures forall j :: 0 <= j < |t.yielded| ==> DistinctKeys(t.yielded[j])
    ensures forall j :: 0 <= j < |t.yielded| && t.yielded[j] == [] ==> acc == [] && at == |rows|
  {
    if at == |rows| then Trace([acc], None)
    else if |rows[at]| != 2 then Trace([], Some(MalformedRow(at, |rows[at]|)))
    else
      var e := EntryOf(rows[at]);
      if HasKey(acc, e.key) then
        var rest := Walk(rows, at + 1, [e]);
        Trace([acc] + rest.yielded, rest.halted)
      else
        Walk(rows, at + 1, acc + [e])
  }

  /** Draining `iter_rows(table)`. */
  function IterRows(rows: seq<Row>): (t: Trace)
    ensures t.halted.None? <==> WellFormed(rows)
    ensures t.halted.Some? ==>
      t.halted.value.index < |rows| &&
      t.halted.value.cells == |rows[t.halted.value.index]| != 2 &&
      WellFormed(rows[..t.halted.value.index])
    ensures t.halted.None? ==> |t.yielded| >= 1
    ensures t.yielded == [] ==> t.halted.Some?
    ensures rows == [] ==> t.halted.None? && |t.yielded| == 1 && t.yielded[0] == []
    ensures forall j :: 0 <= j < |t.yielded| ==> DistinctKeys(t.yielded[j])
    ensures forall j :: 0 <= j < |t.yielded| && t.yielded[j] == [] ==> rows == []
  {
    var trace := Walk(rows, 0, []);
    assert trace.halted.Some? ==> WellFormed(rows[..trace.halted.value.index]) by {
      if trace.halted.Some? {
        var k := trace.halted.value.index;
        forall i | 0 <= i < |rows[..k]| ensures |rows[..k][i]| == 2 {
          assert rows[..k][i] == rows[i];
        }
      }
    }
    trace
  }

  // ---------------------------------------------------------------------------
  // The splitting state machine on normalised entries, and its characterisation
  // ---------------------------------------------------------------------------

  /** Record splitting on already-normalised entries, `acc` being the dict under construction. */
  function SplitFrom(es: Record, acc: Record): (rs: seq<Record>)
    ensures |rs| >= 1
    decreases |es|
  {
    if es == [] then [acc]
    else if HasKey(acc, es[0].key) then [acc] + SplitFrom(es[1..], [es[0]])
    else SplitFrom(es[1..], acc + [es[0]])
  }

  function Split(es: Record): seq<Record>
  {
    SplitFrom(es, [])
  }

  /**
   Independent description of the split: the records, concatenated, give back
   the entries; each record has distinct keys; only an empty input gives an
   empty record; and a new record starts only with a key already present in
   the record before it, so no record could have been extended further.
   */
  ghost predicate IsGreedySplit(es: Record, rs: seq<Record>) {
    && |rs| >= 1
    && Flatten(rs) == es
    && (forall j :: 0 <= j < |rs| ==> DistinctKeys(rs[j]))
    && (rs[0] == [] ==> es == [])
    && (forall j :: 0 < j < |rs| ==> rs[j] != [] && HasKey(rs[j - 1], rs[j][0].key))
  }

  lemma {:induction false} SplitFromIsGreedy(es: Record, acc: Record)
    requires DistinctKeys(acc)
    ensures IsGreedySplit(acc + es, SplitFrom(es, acc))
    decreases |es|
  {
    var rs := SplitFrom(es, acc);
    if es == [] {
      assert acc + es == acc;
      assert Flatten(rs) == acc + Flatten([]);
    } else if HasKey(acc, es[0].key) {
      var rest := SplitFrom(es[1..], [es[0]]);
      SplitFromIsGreedy(es[1..], [es[0]]);
      assert [es[0]] + es[1..] == es;
      assert rs == [acc] + rest;
      assert Flatten(rs) == acc + Flatten(rest) by {
        assert rs[1..] == rest;
      }
      assert rest[0] != [] && rest[0][0] == es[0] by {
        assert Flatten(rest) == rest[0] + Flatten(rest[1..]);
      }
      forall j | 0 < j < |rs| ensures rs[j] != [] && HasKey(rs[j - 1], rs[j][0].key) {
        if j > 1 {
          assert rs[j] == rest[j - 1] && rs[j - 1] == rest[j - 2];
        }
      }
      assert acc != [] by {
        assert |KeysOf(acc)| > 0;
      }
    } else {
      var acc' := acc + [es[0]];
      assert DistinctKeys(acc') by {
        forall i | 0 <= i < |acc| ensures acc[i].key != es[0].key {
          assert KeysOf(acc)[i] == acc[i].key;
        }
      }
      SplitFromIsGreedy(es[1..], acc');
      assert acc' + es[1..] == acc + es;
    }
  }

  /** `Split` is a greedy split of its input. */
  lemma {:induction false} SplitIsGreedy(es: Record)
    ensures IsGreedySplit(es, Split(es))
  {
    SplitFromIsGreedy(es, []);
    assert [] + es == es;
  }

  /** Two greedy splits of the same entries are the same: the description determines the split. */
  lemma {:induction false} GreedySplitUnique(es: Record, a: seq<Record>, b: seq<Record>)
    requires IsGreedySplit(es, a) && IsGreedySplit(es, b)
    ensures a == b
    decreases |a|
  {
    assert Flatten(a) == a[0] + Flatten(a[1..]);
    assert Flatten(b) == b[0] + Flatten(b[1..]);
    FirstRecordNotShorter(es, a, b);
    FirstRecordNotShorter(es, b, a);
    assert a[0] == es[..|a[0]|] == b[0];
    var n := |a[0]|;
    if |a| == 1 || |b| == 1 {
      if |a| > 1 {
        assert false;
      }
      if |b| > 1 {
        assert false;
      }
    } else {
      var tail := es[n..];
      TailIsGreedy(es, a);
      TailIsGreedy(es, b);
      GreedySplitUnique(tail, a[1..], b[1..]);
      assert a == [a[0]] + a[1..] && b == [b[0]] + b[1..];
    }
  }

  /** Dropping the first record of a greedy split leaves a greedy split of the rest. */
  lemma {:induction false} TailIsGreedy(es: Record, a: seq<Record>)
    requires IsGreedySplit(es, a) && |a| > 1
    ensures IsGreedySplit(es[|a[0]|..], a[1..])
  {
    assert Flatten(a) == a[0] + Flatten(a[1..]);
    assert Flatten(a[1..]) == es[|a[0]|..];
    assert a[1..][0] == a[1];
    forall j | 0 < j < |a[1..]| ensures a[1..][j] != [] && HasKey(a[1..][j - 1], a[1..][j][0].key) {
      assert a[1..][j] == a[j + 1] && a[1..][j - 1] == a[j];
    }
  }

  /** In two greedy splits of the same entries, the first record of `a` is not shorter than that of `b`. */
  lemma {:induction false} FirstRecordNotShorter(es: Record, a: seq<Record>, b: seq<Record>)
    requires IsGreedySplit(es, a) && IsGreedySplit(es, b)
    ensures |a[0]| >= |b[0]|
  {
    // If `a` closes its first record before `es[n]`, the key of `es[n]` is one
    // of `es[..n]`; `b[0]` holds no repeated key, so it cannot reach `es[n]`.
    FirstRecordClosesOnRepeat(es, a);
    FirstRecordHasNoRepeat(es, b);
  }

  lemma {:induction false} FirstRecordClosesOnRepeat(es: Record, a: seq<Record>)
    requires IsGreedySplit(es, a)
    ensures |a[0]| <= |es|
    ensures |a| == 1 ==> |a[0]| == |es|
    ensures |a| > 1 ==> |a[0]| < |es| && exists i :: 0 <= i < |a[0]| && es[i].key == es[|a[0]|].key
  {
    assert Flatten(a) == a[0] + Flatten(a[1..]);
    var n := |a[0]|;
    if |a| == 1 {
      assert Flatten(a[1..]) == [];
    } else {
      assert a[1] != [];
      assert Flatten(a[1..]) == a[1] + Flatten(a[2..]);
      assert a[1][0] == es[n];
      assert HasKey(a[0], es[n].key);
      var i :| 0 <= i < n && KeysOf(a[0])[i] == es[n].key;
      assert es[i] == a[0][i];
    }
  }

  lemma {:induction false} FirstRecordHasNoRepeat(es: Record, b: seq<Record>)
    requires IsGreedySplit(es, b)
    ensures |b[0]| <= |es|
    ensures forall i, m :: 0 <= i < m < |b[0]| ==> es[i].key != es[m].key
  {
    assert Flatten(b) == b[0] + Flatten(b[1..]);
    assert forall m :: 0 <= m < |b[0]| ==> b[0][m] == es[m];
  }

  /** A single record comes out exactly when no key repeats anywhere in the entries. */
  lemma {:induction false} SplitSingleIffDistinct(es: Record)
    ensures |Split(es)| == 1 <==> DistinctKeys(es)
    ensures DistinctKeys(es) ==> Split(es) == [es]
  {
    SplitIsGreedy(es);
    var rs := Split(es);
    if |rs| == 1 {
      assert Flatten(rs) == rs[0] + Flatten([]);
    }
    if DistinctKeys(es) {
      assert Flatten([es]) == es + Flatten([]);
      assert IsGreedySplit(es, [es]);
      GreedySplitUnique(es, rs, [es]);
    }
  }

  /** `n` copies of the same block of entries, one after another. */
  function Repeat(block: Record, n: nat): Record
  {
    if n == 0 then [] else block + Repeat(block, n - 1)
  }

  /**
   The shape the script relies on: a table that lists each record's fields in
   the same order, with no key repeated inside a record, splits back into
   exactly its records.
   */
  lemma {:induction false} RepeatedBlocksSplit(block: Record, n: nat)
    requires block != [] && DistinctKeys(block) && n >= 1
    ensures Split(Repeat(block, n)) == seq(n, _ => block)
  {
    var rs := seq(n, _ => block);
    BlocksFlatten(block, n);
    assert IsGreedySplit(Repeat(block, n), rs) by {
      forall j | 0 < j < |rs| ensures rs[j] != [] && HasKey(rs[j - 1], rs[j][0].key) {
        assert KeysOf(block)[0] == block[0].key;
      }
    }
    SplitIsGreedy(Repeat(block, n));
    GreedySplitUnique(Repeat(block, n), Split(Repeat(block, n)), rs);
  }

  lemma {:induction false} BlocksFlatten(block: Record, n: nat)
    ensures Flatten(seq(n, _ => block)) == Repeat(block, n)
  {
    if n > 0 {
      var rs := seq(n, _ => block);
      assert rs[1..] == seq(n - 1, _ => block);
      BlocksFlatten(block, n - 1);
    }
  }

  // ---------------------------------------------------------------------------
  // The generator against the split
  // ---------------------------------------------------------------------------

  /** All but the last record: the records a generator halted mid-record had already yielded. */
  function Closed(rs: seq<Record>): seq<Record>
    requires |rs| >= 1
  {
    rs[..|rs| - 1]
  }

  lemma {:induction false} WalkSplits(rows: seq<Row>, at: nat, acc: Record)
    requires at <= |rows| && DistinctKeys(acc)
    requires WellFormed(rows[at..])
    ensures Walk(rows, at, acc).yielded == SplitFrom(Entries(rows[at..]), acc)
    decreases |rows| - at
  {
    var es := Entries(rows[at..]);
    if at < |rows| {
      assert |rows[at]| == 2 by {
        assert rows[at..][0] == rows[at];
      }
      assert es[0] == EntryOf(rows[at]) by {
        assert rows[at..][0] == rows[at];
      }
      assert WellFormed(rows[at + 1..]) by {
        var tail := rows[at + 1..];
        forall i | 0 <= i < |tail| ensures |tail[i]| == 2 {
          assert tail[i] == rows[at..][i + 1];
        }
      }
      assert es[1..] == Entries(rows[at + 1..]) by {
        forall i | 0 <= i < |es| - 1 ensures es[1..][i] == Entries(rows[at + 1..])[i] {
          assert rows[at + 1..][i] == rows[at..][i + 1];
        }
      }
      var e := EntryOf(rows[at]);
      if HasKey(acc, e.key) {
        WalkSplits(rows, at + 1, [e]);
      } else {
        assert DistinctKeys(acc + [e]) by {
          forall i | 0 <= i < |acc| ensures acc[i].key != e.key {
            assert KeysOf(acc)[i] == acc[i].key;
          }
        }
        WalkSplits(rows, at + 1, acc + [e]);
      }
    } else {
      assert es == [];
    }
  }

  /** On a well-formed table, the generator yields exactly the split of the normalised rows. */
  lemma {:induction false} IterRowsSplits(rows: seq<Row>)
    requires WellFormed(rows)
    ensures IterRows(rows).yielded == Split(Entries(rows))
    ensures IsGreedySplit(Entries(rows), IterRows(rows).yielded)
  {
    assert rows[0..] == rows;
    WalkSplits(rows, 0, []);
    SplitIsGreedy(Entries(rows));
  }

  lemma {:induction false} WalkHalts(rows: seq<Row>, at: nat, acc: Record, k: nat)
    requires at <= k < |rows| && DistinctKeys(acc)
    requires |rows[k]| != 2 && WellFormed(rows[at..k])
    ensures Walk(rows, at, acc).yielded == Closed(SplitFrom(Entries(rows[at..k]), acc))
    decreases |rows| - at
  {
    var es := Entries(rows[at..k]);
    if at < k {
      assert |rows[at]| == 2 && es[0] == EntryOf(rows[at]) by {
        assert rows[at..k][0] == rows[at];
      }
      assert WellFormed(rows[at + 1..k]) by {
        var tail := rows[at + 1..k];
        forall i | 0 <= i < |tail| ensures |tail[i]| == 2 {
          assert tail[i] == rows[at..k][i + 1];
        }
      }
      assert es[1..] == Entries(rows[at + 1..k]) by {
        forall i | 0 <= i < |es| - 1 ensures es[1..][i] == Entries(rows[at + 1..k])[i] {
          assert rows[at + 1..k][i] == rows[at..k][i + 1];
        }
      }
      var e := EntryOf(rows[at]);
      if HasKey(acc, e.key) {
        WalkHalts(rows, at + 1, [e], k);
        var rest := SplitFrom(es[1..], [e]);
        assert SplitFrom(es, acc) == [acc] + rest;
        assert Closed([acc] + rest) == [acc] + Closed(rest);
      } else {
        assert DistinctKeys(acc + [e]) by {
          forall i | 0 <= i < |acc| ensures acc[i].key != e.key {
            assert KeysOf(acc)[i] == acc[i].key;
          }
        }
        WalkHalts(rows, at + 1, acc + [e], k);
      }
    } else {
      assert es == [];
    }
  }

  /**
   On a table with a malformed row, the generator yields every record that
   was complete before that row, and the record under construction is lost.
   */
  lemma {:induction false} IterRowsHalts(rows: seq<Row>, k: nat)
    requires k < |rows| && |rows[k]| != 2 && WellFormed(rows[..k])
    ensures IterRows(rows).halted == Some(MalformedRow(k, |rows[k]|))
    ensures IterRows(rows).yielded == Closed(Split(Entries(rows[..k])))
  {
    assert rows[0..k] == rows[..k];
    WalkHalts(rows, 0, [], k);
  }

  // ---------------------------------------------------------------------------
  // Counting records, and the generator as a stream
  // ---------------------------------------------------------------------------

  /** How many entries carry a key that some earlier entry (or `seen`) already carried. */
  function Repeats(seen: set<string>, es: Record): nat
    decreases |es|
  {
    if es == [] then 0
    else (if es[0].key in seen then 1 else 0) + Repeats(seen + {es[0].key}, es[1..])
  }

  lemma {:induction false} SplitFromCount(es: Record, acc: Record, seen: set<string>)
    requires KeySet(acc) <= seen
    ensures |SplitFrom(es, acc)| <= 1 + Repeats(seen, es)
    decreases |es|
  {
    if es != [] {
      var e := es[0];
      if HasKey(acc, e.key) {
        var i :| 0 <= i < |acc| && KeysOf(acc)[i] == e.key;
        assert acc[i].key in KeySet(acc);
        assert KeySet([e]) <= seen + {e.key} by {
          forall k | k in KeySet([e]) ensures k == e.key {
            var j :| 0 <= j < 1 && [e][j].key == k;
          }
        }
        SplitFromCount(es[1..], [e], seen + {e.key});
      } else {
        assert KeySet(acc + [e]) <= seen + {e.key} by {
          forall k | k in KeySet(acc + [e]) ensures k in seen + {e.key} {
            var i :| 0 <= i < |acc + [e]| && (acc + [e])[i].key == k;
            if i < |acc| {
              assert acc[i].key in KeySet(acc);
            }
          }
        }
        SplitFromCount(es[1..], acc + [e], seen + {e.key});
      }
    }
  }

  /**
   How many entries carry a key already present in the dict under
   construction, `open` being that dict's keys: each one closes a record and
   opens a new one holding only itself.
   */
  function Collisions(open: set<string>, es: Record): nat
    decreases |es|
  {
    if es == [] then 0
    else if es[0].key in open then 1 + Collisions({es[0].key}, es[1..])
    else Collisions(open + {es[0].key}, es[1..])
  }

  lemma {:induction false} SplitFromCollisions(es: Record, acc: Record)
    ensures |SplitFrom(es, acc)| == 1 + Collisions(KeySet(acc), es)
    decreases |es|
  {
    if es != [] {
      var e := es[0];
      HasKeyIffKeySet(acc, e.key);
      KeySetSnoc(acc, e);
      if HasKey(acc, e.key) {
        KeySetSnoc([], e);
        assert [] + [e] == [e];
        assert KeySet([]) == {};
        assert KeySet([e]) == {e.key};
        SplitFromCollisions(es[1..], [e]);
      } else {
        SplitFromCollisions(es[1..], acc + [e]);
      }
    }
  }

  /**
   A well-formed table yields one record, plus one more for every row whose
   key is already in the record being built; that is never more than one
   plus the number of rows repeating any earlier row's key.
   */
  lemma {:induction false} IterRowsCount(rows: seq<Row>)
    requires WellFormed(rows)
    ensures |IterRows(rows).yielded| == 1 + Collisions({}, Entries(rows))
    ensures 1 <= |IterRows(rows).yielded| <= 1 + Repeats({}, Entries(rows))
  {
    IterRowsSplits(rows);
    assert KeySet([]) == {};
    SplitFromCollisions(Entries(rows), []);
    SplitFromCount(Entries(rows), [], {});
  }

  /** The records a caller has certainly received: a halted generator yields nothing more. */
  function Settled(t: Trace): seq<Record>
  {
    if t.halted.Some? || t.yielded == [] then t.yielded else Closed(t.yielded)
  }

  lemma {:induction false} WalkStreams(rows: seq<Row>, extra: seq<Row>, at: nat, acc: Record)
    requires at <= |rows| && DistinctKeys(acc)
    ensures Walk(rows, at, acc).halted.Some? ==> Walk(rows + extra, at, acc) == Walk(rows, at, acc)
    ensures Settled(Walk(rows, at, acc)) <= Walk(rows + extra, at, acc).yielded
    decreases |rows| - at
  {
    var long := rows + extra;
    if at < |rows| {
      assert long[at] == rows[at];
      if |rows[at]| == 2 {
        var e := EntryOf(rows[at]);
        if HasKey(acc, e.key) {
          WalkStreams(rows, extra, at + 1, [e]);
          var rest := Walk(rows, at + 1, [e]);
          assert rest.halted.None? ==> Closed([acc] + rest.yielded) == [acc] + Closed(rest.yielded);
        } else {
          assert DistinctKeys(acc + [e]) by {
            forall i | 0 <= i < |acc| ensures acc[i].key != e.key {
              assert KeysOf(acc)[i] == acc[i].key;
            }
          }
          WalkStreams(rows, extra, at + 1, acc + [e]);
        }
      }
    }
  }

  /**
   The generator is lazy: rows appended to a table cannot change a record
   already closed, nor undo an error already raised. This is what lets
   `next(iter_rows(...))` read the first record of a table whose later rows
   are malformed.
   */
  lemma {:induction false} IterRowsStreams(rows: seq<Row>, extra: seq<Row>)
    ensures IterRows(rows).halted.Some? ==> IterRows(rows + extra) == IterRows(rows)
    ensures Settled(IterRows(rows)) <= IterRows(rows + extra).yielded
  {
    WalkStreams(rows, extra, 0, []);
  }
}

/**
 The frame built from the transaction table (app.py lines 50-55): records
 become the rows of a data frame, rows whose `transaction_id` was already seen
 are dropped (the first occurrence is kept), then only rows whose `note` is
 `Success` are kept, and only the `date` and `amount` columns are retained.

 A data frame built from records has one column per key found in any record;
 a record without some key holds a missing value (`None` here) in that column.
 Missing values compare equal to each other when looking for duplicates, and
 unequal to `Success`. Only the four columns the script reads are kept in a
 frame row; the others are never looked at.
 */
module Transactions {
  import opened Wrappers
  import opened Records
  import TableParser

  const TransactionId := "transaction_id"
  const Note := "note"
  const SuccessNote := "Success"
  const DateColumn := "date"
  const AmountColumn := "amount"

  /** A row of the frame, reduced to the columns the script reads. */
  datatype FrameRow = FrameRow(id: Option<string>, note: Option<string>, date: Option<string>, amount: Option<string>)

  function ToFrameRow(r: Record): FrameRow
  {
    FrameRow(Lookup(r, TransactionId), Lookup(r, Note), Lookup(r, DateColumn), Lookup(r, AmountColumn))
  }

  /** `pd.DataFrame(records)`, one row per record, in order. */
  function Frame(rs: seq<Record>): (f: seq<FrameRow>)
    ensures |f| == |rs|
    ensures forall i :: 0 <= i < |rs| ==> f[i] == ToFrameRow(rs[i])
  {
    seq(|rs|, i requires 0 <= i < |rs| => ToFrameRow(rs[i]))
  }

  /** The ids of the rows, in order. */
  function IdsOf(rs: seq<FrameRow>): (ids: seq<Option<string>>)
    ensures |ids| == |rs|
    ensures forall i :: 0 <= i < |rs| ==> ids[i] == rs[i].id
  {
    seq(|rs|, i requires 0 <= i < |rs| => rs[i].id)
  }

  predicate UniqueIds(rs: seq<FrameRow>) {
    forall i, j :: 0 <= i < j < |rs| ==> rs[i].id != rs[j].id
  }

  /** The position of the first occurrence of `id` in `ids`, or `|ids|` when it does not occur. */
  function FirstPos(ids: seq<Option<string>>, id: Option<string>): (p: nat)
    ensures p <= |ids|
    ensures p < |ids| ==> ids[p] == id
    ensures forall i :: 0 <= i < p ==> ids[i] != id
  {
    if ids == [] then 0
    else if ids[0] == id then 0
    else 1 + FirstPos(ids[1..], id)
  }

  /** `FirstPos` is the only position meeting its description. */
  lemma {:induction false} FirstPosUnique(ids: seq<Option<string>>, id: Option<string>, q: nat)
    requires q <= |ids|
    requires q < |ids| ==> ids[q] == id
    requires forall i :: 0 <= i < q ==> ids[i] != id
    ensures FirstPos(ids, id) == q
  {
    var p := FirstPos(ids, id);
    assert p < |ids| ==> ids[p] == id;
  }

  lemma {:induction false} FirstPosExtend(ids: seq<Option<string>>, x: Option<string>, id: Option<string>)
    ensures id in ids ==> FirstPos(ids + [x], id) == FirstPos(ids, id)
    ensures id !in ids && x == id ==> FirstPos(ids + [x], id) == |ids|
  {
    var q := FirstPos(ids, id);
    if id in ids {
      FirstPosUnique(ids + [x], id, q);
    } else if x == id {
      FirstPosUnique(ids + [x], id, |ids|);
    }
  }

  /** `drop_duplicates(subset=['transaction_id'])`: keep the first row of each id, in order. */
  function Dedup(rs: seq<FrameRow>): (out: seq<FrameRow>)
    ensures |out| <= |rs|
    decreases |rs|
  {
    if rs == [] then []
    else
      var init := rs[..|rs| - 1];
      var kept := Dedup(init);
      if rs[|rs| - 1].id in IdsOf(init) then kept else kept + [rs[|rs| - 1]]
  }

  lemma {:induction false} IdsOfAppend(a: seq<FrameRow>, b: seq<FrameRow>)
    ensures IdsOf(a + b) == IdsOf(a) + IdsOf(b)
  {
  }

  /**
   The deduplicated rows are exactly the first row of each id, in the order
   those first rows appear: every id survives, no id survives twice, each
   survivor is the first row with its id, and survivors keep their order.
   */
  lemma {:induction false} DedupKeepsFirstOccurrences(rs: seq<FrameRow>)
    ensures forall id :: id in IdsOf(Dedup(rs)) <==> id in IdsOf(rs)
    ensures UniqueIds(Dedup(rs))
    ensures forall k :: 0 <= k < |Dedup(rs)| ==>
              FirstPos(IdsOf(rs), Dedup(rs)[k].id) < |rs| && rs[FirstPos(IdsOf(rs), Dedup(rs)[k].id)] == Dedup(rs)[k]
    ensures forall k, l :: 0 <= k < l < |Dedup(rs)| ==>
              FirstPos(IdsOf(rs), Dedup(rs)[k].id) < FirstPos(IdsOf(rs), Dedup(rs)[l].id)
    decreases |rs|
  {
    if rs != [] {
      var init := rs[..|rs| - 1];
      var last := rs[|rs| - 1];
      assert rs == init + [last];
      var kept := Dedup(init);
      DedupKeepsFirstOccurrences(init);
      IdsOfAppend(init, [last]);
      forall k | 0 <= k < |kept|
        ensures FirstPos(IdsOf(rs), kept[k].id) == FirstPos(IdsOf(init), kept[k].id)
      {
        assert kept[k].id == IdsOf(kept)[k];
        FirstPosExtend(IdsOf(init), last.id, kept[k].id);
      }
      if last.id !in IdsOf(init) {
        FirstPosExtend(IdsOf(init), last.id, last.id);
        IdsOfAppend(kept, [last]);
        forall k | 0 <= k < |kept| ensures kept[k].id != last.id {
          assert kept[k].id == IdsOf(kept)[k];
        }
      }
    }
  }

  /** The row survives the `note == "Success"` query. */
  predicate IsSuccess(r: FrameRow) {
    r.note == Some(SuccessNote)
  }

  /** `.query('note == "Success"')`: keep the successful rows, in order. */
  function SuccessOnly(rs: seq<FrameRow>): (out: seq<FrameRow>)
    ensures |out| <= |rs|
    ensures forall r :: r in out ==> r in rs && IsSuccess(r)
    ensures forall r :: r in rs && IsSuccess(r) ==> r in out
  {
    if rs == [] then []
    else (if IsSuccess(rs[0]) then [rs[0]] else []) + SuccessOnly(rs[1..])
  }

  /** The rows that reach the balance computation: deduplicated first, filtered second. */
  function Kept(rs: seq<FrameRow>): seq<FrameRow>
  {
    SuccessOnly(Dedup(rs))
  }

  /** Filtering a concatenation filters each part; with the one-row case this fixes the filter. */
  lemma {:induction false} SuccessOnlyAppend(a: seq<FrameRow>, b: seq<FrameRow>)
    ensures SuccessOnly(a + b) == SuccessOnly(a) + SuccessOnly(b)
    decreases |a|
  {
    if a == [] {
      assert a + b == b;
    } else {
      assert (a + b)[0] == a[0];
      assert (a + b)[1..] == a[1..] + b;
      SuccessOnlyAppend(a[1..], b);
    }
  }

  /** Rows are listed in order of the first positions of their ids in `ids`. */
  predicate RankedByFirstPos(xs: seq<FrameRow>, ids: seq<Option<string>>) {
    forall k, l :: 0 <= k < l < |xs| ==> FirstPos(ids, xs[k].id) < FirstPos(ids, xs[l].id)
  }

  /** Rows listed in order of their ids' first positions stay in that order after filtering. */
  lemma {:induction false} SuccessOnlyKeepsOrder(xs: seq<FrameRow>, ids: seq<Option<string>>)
    requires RankedByFirstPos(xs, ids)
    ensures RankedByFirstPos(SuccessOnly(xs), ids)
    decreases |xs|
  {
    if xs != [] {
      TailRanked(xs, ids);
      SuccessOnlyKeepsOrder(xs[1..], ids);
      var ft := SuccessOnly(xs[1..]);
      if IsSuccess(xs[0]) {
        forall l | 0 <= l < |ft| ensures FirstPos(ids, xs[0].id) < FirstPos(ids, ft[l].id) {
          HeadRanksFirst(xs, ids, ft[l]);
        }
        ConsRanked(xs[0], ft, ids);
        assert SuccessOnly(xs) == [xs[0]] + ft;
      } else {
        assert SuccessOnly(xs) == [] + SuccessOnly(xs[1..]);
        assert [] + SuccessOnly(xs[1..]) == SuccessOnly(xs[1..]);
      }
    }
  }

  lemma {:induction false} TailRanked(xs: seq<FrameRow>, ids: seq<Option<string>>)
    requires xs != [] && RankedByFirstPos(xs, ids)
    ensures RankedByFirstPos(xs[1..], ids)
  {
    var tail := xs[1..];
    forall k, l | 0 <= k < l < |tail| ensures FirstPos(ids, tail[k].id) < FirstPos(ids, tail[l].id) {
      assert tail[k] == xs[k + 1] && tail[l] == xs[l + 1];
    }
  }

  lemma {:induction false} ConsRanked(x: FrameRow, ys: seq<FrameRow>, ids: seq<Option<string>>)
    requires RankedByFirstPos(ys, ids)
    requires forall l :: 0 <= l < |ys| ==> FirstPos(ids, x.id) < FirstPos(ids, ys[l].id)
    ensures RankedByFirstPos([x] + ys, ids)
  {
    var out := [x] + ys;
    forall k, l | 0 <= k < l < |out| ensures FirstPos(ids, out[k].id) < FirstPos(ids, out[l].id) {
      assert out[l] == ys[l - 1];
      if k > 0 {
        assert out[k] == ys[k - 1];
      }
    }
  }

  lemma {:induction false} HeadRanksFirst(xs: seq<FrameRow>, ids: seq<Option<string>>, r: FrameRow)
    requires xs != [] && r in SuccessOnly(xs[1..])
    requires RankedByFirstPos(xs, ids)
    ensures FirstPos(ids, xs[0].id) < FirstPos(ids, r.id)
  {
    var tail := xs[1..];
    assert r in tail;
    var m :| 0 <= m < |tail| && tail[m] == r;
    assert xs[m + 1] == r;
  }

  /** The rows that reach the balance computation keep table order: that of their first rows. */
  lemma {:induction false} KeptInTableOrder(rs: seq<FrameRow>)
    ensures forall k, l :: 0 <= k < l < |Kept(rs)| ==>
      FirstPos(IdsOf(rs), Kept(rs)[k].id) < FirstPos(IdsOf(rs), Kept(rs)[l].id)
  {
    DedupKeepsFirstOccurrences(rs);
    SuccessOnlyKeepsOrder(Dedup(rs), IdsOf(rs));
  }

  /**
   An id reaches the balance computation exactly when its FIRST row is a
   success: a failed first row hides every later successful row with that id.
   */
  lemma {:induction false} KeptIffFirstSucceeds(rs: seq<FrameRow>, id: Option<string>)
    ensures (exists r :: r in Kept(rs) && r.id == id)
        <==> FirstPos(IdsOf(rs), id) < |rs| && IsSuccess(rs[FirstPos(IdsOf(rs), id)])
  {
    if exists r :: r in Kept(rs) && r.id == id {
      var r :| r in Kept(rs) && r.id == id;
      KeptIsFirstSuccess(rs, r);
    }
    if FirstPos(IdsOf(rs), id) < |rs| && IsSuccess(rs[FirstPos(IdsOf(rs), id)]) {
      FirstSuccessIsKept(rs, FirstPos(IdsOf(rs), id));
    }
  }

  lemma {:induction false} KeptIsFirstSuccess(rs: seq<FrameRow>, r: FrameRow)
    requires r in Kept(rs)
    ensures FirstPos(IdsOf(rs), r.id) < |rs| && rs[FirstPos(IdsOf(rs), r.id)] == r && IsSuccess(r)
  {
    var d := Dedup(rs);
    assert r in d;
    var k :| 0 <= k < |d| && d[k] == r;
    DedupKeepsFirstOccurrences(rs);
  }

  lemma {:induction false} FirstSuccessIsKept(rs: seq<FrameRow>, p: nat)
    requires p < |rs| && FirstPos(IdsOf(rs), rs[p].id) == p && IsSuccess(rs[p])
    ensures rs[p] in Kept(rs)
  {
    var d := Dedup(rs);
    DedupKeepsFirstOccurrences(rs);
    assert IdsOf(rs)[p] == rs[p].id;
    assert rs[p].id in IdsOf(d);
    var k :| 0 <= k < |d| && IdsOf(d)[k] == rs[p].id;
    assert d[k] == rs[p];
  }

  /** The rows that reach the balance computation are successes with distinct ids. */
  lemma {:induction false} KeptAreUniqueSuccesses(rs: seq<FrameRow>)
    ensures forall r :: r in Kept(rs) ==> r in rs && IsSuccess(r)
    ensures UniqueIds(Kept(rs))
  {
    DedupKeepsFirstOccurrences(rs);
    SuccessOnlyKeepsUnique(Dedup(rs));
    forall r | r in Kept(rs) ensures r in rs {
      var d := Dedup(rs);
      var k :| 0 <= k < |d| && d[k] == r;
    }
  }

  lemma {:induction false} SuccessOnlyKeepsUnique(rs: seq<FrameRow>)
    requires UniqueIds(rs)
    ensures UniqueIds(SuccessOnly(rs))
  {
    if rs != [] {
      assert UniqueIds(rs[1..]) by {
        forall i, j | 0 <= i < j < |rs[1..]| ensures rs[1..][i].id != rs[1..][j].id {
          assert rs[1..][i] == rs[i + 1] && rs[1..][j] == rs[j + 1];
        }
      }
      SuccessOnlyKeepsUnique(rs[1..]);
      var tail := SuccessOnly(rs[1..]);
      if IsSuccess(rs[0]) {
        forall j | 0 <= j < |tail| ensures rs[0].id != tail[j].id {
          assert tail[j] in rs[1..];
          var i :| 0 <= i < |rs[1..]| && rs[1..][i] == tail[j];
          assert rs[i + 1] == tail[j];
        }
      }
    }
  }

  /**
   Filtering before deduplicating would give a different answer: when the
   first row of an id failed and a later one succeeded, app.py drops the
   id, while the other order would keep the later row.
   */
  lemma {:induction false} FilterOrderMatters(rs: seq<FrameRow>, i: nat, j: nat)
    requires i < j < |rs| && rs[i].id == rs[j].id
    requires FirstPos(IdsOf(rs), rs[i].id) == i
    requires !IsSuccess(rs[i]) && IsSuccess(rs[j])
    ensures !exists r :: r in Kept(rs) && r.id == rs[j].id
    ensures exists r :: r in Dedup(SuccessOnly(rs)) && r.id == rs[j].id
  {
    KeptIffFirstSucceeds(rs, rs[i].id);
    SuccessKeptAfterFiltering(rs, j);
  }

  /** Filtering first, a successful row's id always survives the deduplication that follows. */
  lemma {:induction false} SuccessKeptAfterFiltering(rs: seq<FrameRow>, j: nat)
    requires j < |rs| && IsSuccess(rs[j])
    ensures exists r :: r in Dedup(SuccessOnly(rs)) && r.id == rs[j].id
  {
    var s := SuccessOnly(rs);
    assert rs[j] in s;
    var m :| 0 <= m < |s| && s[m] == rs[j];
    assert IdsOf(s)[m] == rs[j].id;
    DedupKeepsFirstOccurrences(s);
    var d := Dedup(s);
    assert rs[j].id in IdsOf(d);
    var k :| 0 <= k < |d| && IdsOf(d)[k] == rs[j].id;
    assert d[k] in d && d[k].id == rs[j].id;
  }

  // ---------------------------------------------------------------------------
  // Columns of the frame, and the selection of `date` and `amount`
  // ---------------------------------------------------------------------------

  /** The columns of a frame built from records: every key of every record. */
  function Columns(rs: seq<Record>): set<string>
  {
    if rs == [] then {} else KeySet(rs[0]) + Columns(rs[1..])
  }

  /**
 Deduplicating on, querying or selecting a column the frame lacks raises an
 error (a `KeyError`, or an undefined-name error from the query).
 */
  datatype FrameError = MissingColumns(names: seq<string>)

  /** One row of the frame the balance computation starts from; `None` is a missing value. */
  datatype Txn = Txn(date: Option<string>, amount: Option<string>)

  /** The wanted columns the frame lacks, in the order they were asked for. */
  function Absent(cols: set<string>, wanted: seq<string>): (names: seq<string>)
    ensures forall n :: n in names <==> n in wanted && n !in cols
  {
    if wanted == [] then []
    else (if wanted[0] in cols then [] else [wanted[0]]) + Absent(cols, wanted[1..])
  }

  /** `[['date', 'amount']]`. */
  function SelectDateAmount(rs: seq<FrameRow>): (ts: seq<Txn>)
    ensures |ts| == |rs|
    ensures forall k :: 0 <= k < |rs| ==> ts[k].date == rs[k].date && ts[k].amount == rs[k].amount
  {
    seq(|rs|, k requires 0 <= k < |rs| => Txn(rs[k].date, rs[k].amount))
  }

  /**
   The frame of app.py lines 50-55, or the `KeyError` that stops it: the
   `transaction_id` column is needed first, then `note`, then both `date`
   and `amount`.
   */
  function TransactionFrame(rs: seq<Record>): (res: Result<seq<Txn>, FrameError>)
    ensures res.Success? <==> TransactionId in Columns(rs) && Note in Columns(rs) &&
                              DateColumn in Columns(rs) && AmountColumn in Columns(rs)
    ensures res.Failure? ==> res.error.names != [] && forall n :: n in res.error.names ==> n !in Columns(rs)
    ensures res.Success? ==> |res.value| <= |rs|
    ensures res.Success? ==>
      |res.value| == |Kept(Frame(rs))| &&
      forall k :: 0 <= k < |res.value| ==>
        res.value[k].date == Kept(Frame(rs))[k].date && res.value[k].amount == Kept(Frame(rs))[k].amount
  {
    var cols := Columns(rs);
    if TransactionId !in cols then Failure(MissingColumns([TransactionId]))
    else if Note !in cols then Failure(MissingColumns([Note]))
    else
      var absent := Absent(cols, [DateColumn, AmountColumn]);
      if absent != [] then
        assert absent[0] in absent;
        Failure(MissingColumns(absent))
      else
        assert DateColumn in cols && AmountColumn in cols by {
          assert DateColumn !in absent && AmountColumn !in absent;
        }
        Success(SelectDateAmount(Kept(Frame(rs))))
  }

  /** Record `p` is the first record with its `transaction_id`, and its `note` is `Success`. */
  predicate FirstSuccessAt(rs: seq<Record>, p: int) {
    0 <= p < |rs| &&
    Lookup(rs[p], Note) == Some(SuccessNote) &&
    FirstPos(IdsOf(Frame(rs)), Lookup(rs[p], TransactionId)) == p
  }

  /** The position in the table of the record behind each row of the frame. */
  function FrameSources(rs: seq<Record>): (ps: seq<int>)
    ensures |ps| == |Kept(Frame(rs))|
    ensures forall k :: 0 <= k < |ps| ==> 0 <= ps[k] < |rs|
  {
    var f := Frame(rs);
    var ps := seq(|Kept(f)|, k requires 0 <= k < |Kept(f)| => FirstPos(IdsOf(f), Kept(f)[k].id));
    assert forall k :: 0 <= k < |ps| ==> 0 <= ps[k] < |rs| by {
      forall k | 0 <= k < |ps| ensures 0 <= ps[k] < |rs| {
        assert Kept(f)[k] in Kept(f);
        KeptIsFirstSuccess(f, Kept(f)[k]);
      }
    }
    ps
  }

  /**
   The frame is exactly the records that are first with their
   `transaction_id` and whose `note` is `Success`, in table order, each
   contributing its `date` and `amount`.
   */
  lemma {:induction false} FrameRowsAreFirstSuccesses(rs: seq<Record>)
    ensures forall k :: 0 <= k < |FrameSources(rs)| ==> FirstSuccessAt(rs, FrameSources(rs)[k])
    ensures forall k, l :: 0 <= k < l < |FrameSources(rs)| ==> FrameSources(rs)[k] < FrameSources(rs)[l]
    ensures forall p :: FirstSuccessAt(rs, p) ==> p in FrameSources(rs)
    ensures TransactionFrame(rs).Success? ==>
      |TransactionFrame(rs).value| == |FrameSources(rs)| &&
      forall k :: 0 <= k < |FrameSources(rs)| ==>
        TransactionFrame(rs).value[k] ==
          Txn(Lookup(rs[FrameSources(rs)[k]], DateColumn), Lookup(rs[FrameSources(rs)[k]], AmountColumn))
  {
    FrameSourcesAreKept(rs);
    KeptInTableOrder(Frame(rs));
    FrameSourcesComplete(rs);
    FrameValues(rs);
  }

  lemma {:induction false} FrameSourcesAreKept(rs: seq<Record>)
    ensures forall k :: 0 <= k < |FrameSources(rs)| ==>
      FirstSuccessAt(rs, FrameSources(rs)[k]) && Frame(rs)[FrameSources(rs)[k]] == Kept(Frame(rs))[k]
  {
    var f := Frame(rs);
    var ps := FrameSources(rs);
    forall k | 0 <= k < |ps|
      ensures FirstSuccessAt(rs, ps[k]) && f[ps[k]] == Kept(f)[k]
    {
      var r := Kept(f)[k];
      assert r in Kept(f);
      KeptIsFirstSuccess(f, r);
      assert f[ps[k]] == ToFrameRow(rs[ps[k]]);
    }
  }

  lemma {:induction false} FrameSourcesComplete(rs: seq<Record>)
    ensures forall p :: FirstSuccessAt(rs, p) ==> p in FrameSources(rs)
  {
    var f := Frame(rs);
    var ps := FrameSources(rs);
    forall p | FirstSuccessAt(rs, p) ensures p in ps {
      assert f[p] == ToFrameRow(rs[p]);
      FirstSuccessIsKept(f, p);
      var k :| 0 <= k < |Kept(f)| && Kept(f)[k] == f[p];
      assert ps[k] == p;
    }
  }

  lemma {:induction false} FrameValues(rs: seq<Record>)
    ensures TransactionFrame(rs).Success? ==>
      |TransactionFrame(rs).value| == |FrameSources(rs)| &&
      forall k :: 0 <= k < |FrameSources(rs)| ==>
        TransactionFrame(rs).value[k] ==
          Txn(Lookup(rs[FrameSources(rs)[k]], DateColumn), Lookup(rs[FrameSources(rs)[k]], AmountColumn))
  {
    var f := Frame(rs);
    var ps := FrameSources(rs);
    if TransactionFrame(rs).Success? {
      FrameSourcesAreKept(rs);
      var v := TransactionFrame(rs).value;
      forall k | 0 <= k < |ps|
        ensures v[k] == Txn(Lookup(rs[ps[k]], DateColumn), Lookup(rs[ps[k]], AmountColumn))
      {
        assert f[ps[k]] == Kept(f)[k];
        assert f[ps[k]] == ToFrameRow(rs[ps[k]]);
        assert v[k].date == Kept(f)[k].date && v[k].amount == Kept(f)[k].amount;
      }
    }
  }

  // ---------------------------------------------------------------------------
  // The whole of lines 50-55, from the table's rows
  // ---------------------------------------------------------------------------

  /** Why lines 50-55 stop: a malformed row met while draining the generator, or a missing column. */
  datatype TableError = BadRow(row: TableParser.ParseError) | BadColumns(columns: FrameError)

  /**
   `pd.DataFrame(iter_rows(table))` and what follows it. Building the frame
   drains the generator, so a malformed row anywhere in the table stops
   everything, even after records were yielded; otherwise the frame is built
   from the table's records.
   */
  function TransactionTable(rows: seq<TableParser.Row>): (res: Result<seq<Txn>, TableError>)
    ensures res.Failure? && res.error.BadRow? <==> !TableParser.WellFormed(rows)
    ensures res.Failure? && res.error.BadRow? ==> Some(res.error.row) == TableParser.IterRows(rows).halted
    ensures TableParser.WellFormed(rows) ==>
      (res.Success? <==> TransactionFrame(TableParser.Split(TableParser.Entries(rows))).Success?)
    ensures TableParser.WellFormed(rows) && res.Success? ==>
      res.value == TransactionFrame(TableParser.Split(TableParser.Entries(rows))).value
    ensures TableParser.WellFormed(rows) && res.Failure? ==>
      res.error == BadColumns(TransactionFrame(TableParser.Split(TableParser.Entries(rows))).error)
  {
    var t := TableParser.IterRows(rows);
    if t.halted.Some? then
      Failure(BadRow(t.halted.value))
    else
      TableParser.IterRowsSplits(rows);
      match TransactionFrame(t.yielded)
      case Success(frame) => Success(frame)
      case Failure(e) => Failure(BadColumns(e))
  }

}

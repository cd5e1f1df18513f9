/**
 The balances shown next to each transaction (app.py line 61), and the
 current balance they start from (app.py line 47).

 Amounts are whole cents. The table lists the most recent transaction
 first and the card's current balance `b` is the balance after it, so the
 balance after the transaction in row `i` is `b` minus the amounts of the
 rows above it: the running total of the negated amounts, plus `b`, shifted
 down one row with `b` filling the first row.
 */
module Balance {
  import opened Wrappers
  import opened Records
  import TableParser

  /** The total of a sequence, peeling elements off the back. */
  function Sum(xs: seq<int>): int
  {
    if xs == [] then 0 else Sum(xs[..|xs| - 1]) + xs[|xs| - 1]
  }

  lemma {:induction false} SumPrefixStep(xs: seq<int>, i: nat)
    requires i < |xs|
    ensures Sum(xs[..i + 1]) == Sum(xs[..i]) + xs[i]
  {
    assert xs[..i + 1][..i] == xs[..i];
  }

  lemma {:induction false} SumCons(x: int, xs: seq<int>)
    ensures Sum([x] + xs) == x + Sum(xs)
    decreases |xs|
  {
    if xs != [] {
      var n := |xs|;
      assert ([x] + xs)[..n] == [x] + xs[..n - 1];
      SumCons(x, xs[..n - 1]);
    } else {
      assert [x] + xs == [x];
      assert [x][..0] == [];
    }
  }

  /** `-amount`, row by row. */
  function Negate(xs: seq<int>): (ys: seq<int>)
    ensures |ys| == |xs|
    ensures forall i :: 0 <= i < |xs| ==> ys[i] == -xs[i]
  {
    seq(|xs|, i requires 0 <= i < |xs| => -xs[i])
  }

  lemma {:induction false} SumNegate(xs: seq<int>)
    ensures Sum(Negate(xs)) == -Sum(xs)
    decreases |xs|
  {
    if xs != [] {
      var n := |xs|;
      assert Negate(xs)[..n - 1] == Negate(xs[..n - 1]);
      SumNegate(xs[..n - 1]);
    }
  }

  /** pandas `cumsum`, as a left-to-right scan carrying the total so far. */
  function CumSumFrom(xs: seq<int>, total: int): (cs: seq<int>)
    ensures |cs| == |xs|
    ensures forall i :: 0 <= i < |xs| ==> cs[i] == total + Sum(xs[..i + 1])
    decreases |xs|
  {
    if xs == [] then []
    else
      var rest := CumSumFrom(xs[1..], total + xs[0]);
      var cs := [total + xs[0]] + rest;
      assert forall i :: 0 <= i < |xs| ==> cs[i] == total + Sum(xs[..i + 1]) by {
        forall i | 0 <= i < |xs| ensures cs[i] == total + Sum(xs[..i + 1]) {
          assert xs[..i + 1] == [xs[0]] + xs[1..][..i];
          SumCons(xs[0], xs[1..][..i]);
          if i == 0 {
            assert xs[1..][..0] == [];
          }
        }
      }
      cs
  }

  function CumSum(xs: seq<int>): (cs: seq<int>)
    ensures |cs| == |xs|
    ensures forall i :: 0 <= i < |xs| ==> cs[i] == Sum(xs[..i + 1])
  {
    CumSumFrom(xs, 0)
  }

  /** `+ b` on a column. */
  function AddEach(xs: seq<int>, c: int): (ys: seq<int>)
    ensures |ys| == |xs|
    ensures forall i :: 0 <= i < |xs| ==> ys[i] == xs[i] + c
  {
    seq(|xs|, i requires 0 <= i < |xs| => xs[i] + c)
  }

  /** pandas `shift(fill_value=fill)`: every value moves down one row, the last one is dropped. */
  function Shift(xs: seq<int>, fill: int): (ys: seq<int>)
    ensures |ys| == |xs|
    ensures |xs| > 0 ==> ys[0] == fill
    ensures forall i :: 0 <= i < |xs| - 1 ==> ys[i + 1] == xs[i]
  {
    if xs == [] then [] else [fill] + xs[..|xs| - 1]
  }

  /**
   The balance column: the balance after each row's transaction, in table
   order. Row `i` shows `b` less every amount above it.
   */
  function Balances(b: int, amounts: seq<int>): (r: seq<int>)
    ensures |r| == |amounts|
    ensures forall i :: 0 <= i < |amounts| ==> r[i] == b - Sum(amounts[..i])
  {
    var r := Shift(AddEach(CumSum(Negate(amounts)), b), b);
    assert forall i :: 0 <= i < |amounts| ==> r[i] == b - Sum(amounts[..i]) by {
      forall i | 0 <= i < |amounts| ensures r[i] == b - Sum(amounts[..i]) {
        if i == 0 {
          assert amounts[..0] == [];
        } else {
          assert Negate(amounts)[..i] == Negate(amounts[..i]);
          SumNegate(amounts[..i]);
        }
      }
    }
    r
  }

  /** The first row shows `b`; each further row adds back the amount of the row above it. */
  lemma {:induction false} BalancesStep(b: int, amounts: seq<int>)
    ensures |amounts| > 0 ==> Balances(b, amounts)[0] == b
    ensures forall i :: 0 <= i < |amounts| - 1 ==>
      Balances(b, amounts)[i + 1] == Balances(b, amounts)[i] - amounts[i]
  {
    var r := Balances(b, amounts);
    if |amounts| > 0 {
      assert amounts[..0] == [];
    }
    forall i | 0 <= i < |amounts| - 1 ensures r[i + 1] == r[i] - amounts[i] {
      SumPrefixStep(amounts, i);
    }
  }

  /**
   The step relation determines the column: any column of the same length
   that starts at `b` and goes down by each row's amount is the balance column.
   */
  lemma {:induction false} BalancesUnique(b: int, amounts: seq<int>, column: seq<int>)
    requires |column| == |amounts|
    requires |amounts| > 0 ==> column[0] == b
    requires forall i :: 0 <= i < |amounts| - 1 ==> column[i + 1] == column[i] - amounts[i]
    ensures column == Balances(b, amounts)
  {
    forall k | 0 <= k < |amounts| ensures column[k] == b - Sum(amounts[..k]) {
      StepsClosedForm(b, amounts, column, k);
    }
  }

  lemma {:induction false} StepsClosedForm(b: int, amounts: seq<int>, column: seq<int>, k: nat)
    requires |column| == |amounts| && k < |amounts|
    requires column[0] == b
    requires forall i :: 0 <= i < |amounts| - 1 ==> column[i + 1] == column[i] - amounts[i]
    ensures column[k] == b - Sum(amounts[..k])
    decreases k
  {
    if k == 0 {
      assert amounts[..0] == [];
    } else {
      StepsClosedForm(b, amounts, column, k - 1);
      SumPrefixStep(amounts, k - 1);
    }
  }

  /** Every amount but the last can be read back from the balance column. */
  lemma {:induction false} AmountsFromBalances(b: int, amounts: seq<int>, other: seq<int>)
    requires |other| == |amounts| && |amounts| > 0
    requires Balances(b, amounts) == Balances(b, other)
    ensures amounts[..|amounts| - 1] == other[..|other| - 1]
  {
    BalancesStep(b, amounts);
    BalancesStep(b, other);
    var n := |amounts|;
    forall i | 0 <= i < n - 1 ensures amounts[i] == other[i] {
      assert Balances(b, amounts)[i + 1] == Balances(b, other)[i + 1];
    }
  }

  /** The last amount is lost to the shift: changing it leaves the column as it was. */
  lemma {:induction false} LastAmountLost(b: int, amounts: seq<int>, x: int)
    requires |amounts| > 0
    ensures Balances(b, amounts[..|amounts| - 1] + [x]) == Balances(b, amounts)
  {
    var n := |amounts|;
    var changed := amounts[..n - 1] + [x];
    forall i | 0 <= i < n ensures changed[..i] == amounts[..i] {
      assert changed[..i] == amounts[..n - 1][..i];
    }
  }

  /**
   The balance before the oldest transaction (the bottom row) is `b` less
   the total of all amounts: the bottom row's balance less its own amount.
   */
  lemma {:induction false} OpeningBalance(b: int, amounts: seq<int>)
    requires |amounts| > 0
    ensures Balances(b, amounts)[|amounts| - 1] - amounts[|amounts| - 1] == b - Sum(amounts)
  {
    var n := |amounts|;
    SumPrefixStep(amounts, n - 1);
    assert amounts[..n] == amounts;
  }

  /**
   A card holding $100.00 after a $5.00 fare followed by a $3.50 fare: the
   table lists the $3.50 fare first, its row shows $100.00, the $5.00 fare's
   row shows $103.50, and the card held $108.50 before either fare.
   */
  lemma {:induction false} TwoFares()
    ensures Balances(10000, [-350, -500]) == [10000, 10350]
    ensures Balances(10000, [-350, -500])[1] - (-500) == 10850
  {
    var a := [-350, -500];
    assert a[..0] == [];
    assert a[..1] == [-350];
    assert Sum([-350]) == -350 by {
      assert [-350][..0] == [];
    }
  }


  /** The balance column computed row by row, as a running total would. */
  method RunningBalances(b: int, amounts: seq<int>) returns (r: seq<int>)
    ensures r == Balances(b, amounts)
  {
    r := [];
    var balance := b;
    var i := 0;
    while i < |amounts|
      invariant 0 <= i <= |amounts|
      invariant |r| == i
      invariant forall k :: 0 <= k < i ==> r[k] == b - Sum(amounts[..k])
      invariant balance == b - Sum(amounts[..i])
    {
      r := r + [balance];
      SumPrefixStep(amounts, i);
      balance := balance - amounts[i];
      i := i + 1;
    }
  }

  // ---------------------------------------------------------------------------
  // The current balance (app.py line 47)
  // ---------------------------------------------------------------------------

  /** Every `$` removed. */
  function StripDollar(s: string): (t: string)
    ensures '$' !in t
    ensures |t| <= |s|
    ensures forall c :: c != '$' ==> (c in t <==> c in s)
  {
    if s == [] then []
    else
      var rest := StripDollar(s[1..]);
      assert forall c :: c in s <==> c == s[0] || c in s[1..];
      if s[0] == '$' then rest else [s[0]] + rest
  }

  lemma {:induction false} StripDollarAppend(s: string, u: string)
    ensures StripDollar(s + u) == StripDollar(s) + StripDollar(u)
    decreases |s|
  {
    if s == [] {
      assert s + u == u;
    } else {
      assert (s + u)[0] == s[0];
      assert (s + u)[1..] == s[1..] + u;
      StripDollarAppend(s[1..], u);
    }
  }

  /** A cell with no `$` is left alone, so stripping twice is stripping once. */
  lemma {:induction false} StripDollarKeeps(s: string)
    requires '$' !in s
    ensures StripDollar(s) == s
    decreases |s|
  {
    if s != [] {
      assert forall c :: c in s[1..] ==> c in s;
      StripDollarKeeps(s[1..]);
    }
  }

  const BalanceKey := "balance"

  datatype BalanceError =
    | RowError(error: TableParser.ParseError)  // `next` ran into a malformed row first
    | MissingBalance                           // the first record has no `balance` key

  /**
   The text of the current balance: the first record the summary table
   yields, its `balance` cell, with the dollar signs removed. Turning that
   text into a number is outside this model.
   */
  function CurrentBalanceText(rows: seq<TableParser.Row>): (res: Result<string, BalanceError>)
    ensures res.Failure? && res.error.RowError? <==>
      TableParser.IterRows(rows).yielded == []
    ensures res.Failure? && res.error.RowError? ==>
      Some(res.error.error) == TableParser.IterRows(rows).halted
    ensures res.Failure? && res.error.MissingBalance? <==>
      TableParser.IterRows(rows).yielded != [] &&
      !HasKey(TableParser.IterRows(rows).yielded[0], BalanceKey)
    ensures res.Success? ==>
      exists v :: Entry(BalanceKey, v) in TableParser.IterRows(rows).yielded[0] && res.value == StripDollar(v)
    ensures res.Success? ==> '$' !in res.value
  {
    var t := TableParser.IterRows(rows);
    if t.yielded == [] then
      Failure(RowError(t.halted.value))
    else
      match Lookup(t.yielded[0], BalanceKey)
      case None => Failure(MissingBalance)
      case Some(v) => Success(StripDollar(v))
  }

  /**
   Only the rows up to the first record matter: once that record is closed,
   rows after it, malformed or not, cannot change the current balance.
   */
  lemma {:induction false} CurrentBalanceIgnoresLaterRows(rows: seq<TableParser.Row>, extra: seq<TableParser.Row>)
    requires TableParser.Settled(TableParser.IterRows(rows)) != []
    ensures CurrentBalanceText(rows + extra) == CurrentBalanceText(rows)
  {
    TableParser.IterRowsStreams(rows, extra);
  }
}

/**
 The report rows (app.py lines 56-61): each kept transaction gets its
 midnight-adjusted time, which also becomes its date, its amount, and the
 balance after it. Timestamps and amounts arrive already parsed, as seconds
 and cents.
 */
module Ledger {
  import Midnight
  import Balance

  datatype Posted = Posted(time: int, cents: int)

  datatype Line = Line(date: int, time: int, amount: int, balance: int)

  function CentsOf(txns: seq<Posted>): (cs: seq<int>)
    ensures |cs| == |txns|
    ensures forall i :: 0 <= i < |txns| ==> cs[i] == txns[i].cents
  {
    seq(|txns|, i requires 0 <= i < |txns| => txns[i].cents)
  }

  /** One report row: the adjusted time serves as both date and time. */
  function LineOf(txn: Posted, balance: int): (line: Line)
    ensures line.time == Midnight.AdjustMidnight(txn.time)
    ensures line.date == line.time && line.amount == txn.cents && line.balance == balance
    ensures Midnight.Hour(line.time) != 0
    ensures txn.time - Midnight.SecondsPerHour <= line.time <= txn.time
  {
    Midnight.AdjustMidnightIdempotent(txn.time);
    Midnight.AdjustMidnightMovesBack(txn.time);
    var t := Midnight.AdjustMidnight(txn.time);
    Line(t, t, txn.cents, balance)
  }

  /** The report, in table order (the display sort is not modelled). */
  function Report(b: int, txns: seq<Posted>): (lines: seq<Line>)
    ensures |lines| == |txns|
    ensures forall i :: 0 <= i < |txns| ==>
      lines[i].time == Midnight.AdjustMidnight(txns[i].time) &&
      lines[i].date == lines[i].time && lines[i].amount == txns[i].cents &&
      Midnight.Hour(lines[i].time) != 0 &&
      txns[i].time - Midnight.SecondsPerHour <= lines[i].time <= txns[i].time
    ensures forall i :: 0 <= i < |txns| ==> lines[i].balance == b - Balance.Sum(CentsOf(txns)[..i])
  {
    var balances := Balance.Balances(b, CentsOf(txns));
    seq(|txns|, i requires 0 <= i < |txns| => LineOf(txns[i], balances[i]))
  }

  /** Down the report, each balance is the one above it less the amount above it. */
  lemma {:induction false} ReportChains(b: int, txns: seq<Posted>)
    ensures |txns| > 0 ==> Report(b, txns)[0].balance == b
    ensures forall i :: 0 <= i < |txns| - 1 ==>
      Report(b, txns)[i + 1].balance == Report(b, txns)[i].balance - Report(b, txns)[i].amount
  {
    Balance.BalancesStep(b, CentsOf(txns));
  }

  /**
   Balances follow the table order, not the times: moving a transaction
   across midnight, or restamping it at all, changes no balance.
   */
  lemma {:induction false} BalancesIgnoreTimes(b: int, txns: seq<Posted>, restamped: seq<Posted>)
    requires |restamped| == |txns|
    requires forall i :: 0 <= i < |txns| ==> restamped[i].cents == txns[i].cents
    ensures forall i :: 0 <= i < |txns| ==> Report(b, restamped)[i].balance == Report(b, txns)[i].balance
  {
    assert CentsOf(restamped) == CentsOf(txns);
  }
}

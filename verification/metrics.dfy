/** The end-of-day statistics of `JournalModel.step`: the one-year and one-month moving
    averages of review time and of invites per paper, and the count of registered papers still
    missing reviewers. */
module Metrics {

  import opened Basics
  import opened Agents
  import opened Rolling
  import opened Journal

  /** The averages look back over the entries of the last 365 and of the last 30 days. */
  const YEAR: int := 365
  const MONTH: int := 30

  /** The one way the statistics can stop the simulation: Python's `ZeroDivisionError`. */
  datatype Crash = DivisionByZero

  /** An accumulated total over its count, or `0` when nothing positive was counted. */
  function Ratio(a: Acc): (r: real)
    ensures a.count > 0 ==> r * a.count as real == a.total as real
    ensures a.count <= 0 ==> r == 0.0
  {
    if a.count > 0 then a.total as real / a.count as real else 0.0
  }

  /** A one-year average (lines 235 and 238): total over count of the entries of the last 365
      days, guarded by that same count. */
  function YearAverage(l: Ledger, day: int): (r: real)
    ensures Window(l, day - YEAR).count > 0 ==>
      r * Window(l, day - YEAR).count as real == Window(l, day - YEAR).total as real
    ensures Window(l, day - YEAR).count <= 0 ==> r == 0.0
  {
    Ratio(Window(l, day - YEAR))
  }

  /** A one-month average as written (lines 236 and 239): total over count of the entries of
      the last 30 days, but guarded by the count of the last 365 days. It divides by zero when
      the year has entries and the month has none. */
  function MonthAverage(l: Ledger, day: int): (r: Result<real, Crash>)
    ensures r.Failure? <==> Window(l, day - YEAR).count > 0 && Window(l, day - MONTH).count == 0
    ensures r.Success? && Window(l, day - YEAR).count > 0 ==>
      r.value * Window(l, day - MONTH).count as real == Window(l, day - MONTH).total as real
    ensures Window(l, day - YEAR).count <= 0 ==> r == Success(0.0)
  {
    var year, month := Window(l, day - YEAR), Window(l, day - MONTH);
    if year.count > 0 then
      if month.count == 0 then Failure(DivisionByZero)
      else Success(month.total as real / month.count as real)
    else Success(0.0)
  }

  /** On a ledger of non-negative counts the month average is the month's own ratio whenever
      the month counted something; it fails exactly when the month is empty and the year is
      not, and is `0` when both are empty. */
  lemma MonthAverageAgainstRatio(l: Ledger, day: int)
    requires NonNegative(l)
    ensures Window(l, day - MONTH).count > 0 ==> MonthAverage(l, day) == Success(Ratio(Window(l, day - MONTH)))
    ensures Window(l, day - MONTH).count == 0 ==>
      (MonthAverage(l, day).Failure? <==> Window(l, day - YEAR).count > 0)
    ensures Window(l, day - YEAR).count == 0 ==> MonthAverage(l, day) == Success(0.0)
  {
    WindowNested(l, day - YEAR, day - MONTH);
  }

  /** A single paper fully staffed 100 days ago makes the one-month invite average divide by
      zero. */
  lemma MonthAverageCrashes(day: int)
    ensures MonthAverage([Entry(day - 100, Acc(1, 5))], day) == Failure(DivisionByZero)
  {
    var l := [Entry(day - 100, Acc(1, 5))];
    assert Window(l, day - YEAR) == Acc(1, 5);
    assert Window(l, day - MONTH) == Acc(0, 0);
  }

  /** The number of papers with as many reviewers as reviews they need. */
  function CountStaffed(reg: seq<Paper>): (n: nat)
    ensures n <= |reg|
  {
    if reg == [] then 0
    else (if |reg[0].reviewers| == reg[0].numReviews then 1 else 0) + CountStaffed(reg[1..])
  }

  /** `submitted_papers_missing_reviewers` as computed (lines 241-244): the registry size less
      one for each paper whose reviewer count equals its review count. */
  function MissingCount(reg: seq<Paper>): (n: nat)
    ensures n <= |reg|
  {
    |reg| - CountStaffed(reg)
  }

  /** The papers still missing reviewers. */
  function Missing(reg: seq<Paper>): (r: seq<Paper>)
    ensures forall p :: p in r <==> p in reg && MissingReviewers(p)
  {
    if reg == [] then []
    else (if MissingReviewers(reg[0]) then [reg[0]] else []) + Missing(reg[1..])
  }

  /** When no paper has more reviewers than it needs, the count is exactly the number of
      papers missing reviewers. */
  lemma {:induction false} MissingCountCounts(reg: seq<Paper>)
    requires forall p :: p in reg ==> |p.reviewers| <= p.numReviews
    ensures MissingCount(reg) == |Missing(reg)|
  {
    if reg != [] {
      assert reg[0] in reg;
      assert forall p :: p in reg[1..] ==> p in reg;
      MissingCountCounts(reg[1..]);
    }
  }

  /** The day's statistics in the order lines 235-244 compute them; a division by zero in
      either one-month average stops the run. */
  function Collect(day: int, revTime: Ledger, invites: Ledger, reg: seq<Paper>): (r: Result<Snapshot, Crash>)
    ensures r.Failure? <==> MonthAverage(revTime, day).Failure? || MonthAverage(invites, day).Failure?
    ensures r.Success? ==>
      && r.value.revTime1y == YearAverage(revTime, day)
      && Success(r.value.revTime1m) == MonthAverage(revTime, day)
      && r.value.invites1y == YearAverage(invites, day)
      && Success(r.value.invites1m) == MonthAverage(invites, day)
      && r.value.missingReviewers == MissingCount(reg)
  {
    var rev1m := MonthAverage(revTime, day);
    var inv1m := MonthAverage(invites, day);
    if rev1m.Failure? then Failure(rev1m.error)
    else if inv1m.Failure? then Failure(inv1m.error)
    else Success(Snapshot(YearAverage(revTime, day), rev1m.value, YearAverage(invites, day), inv1m.value,
                          MissingCount(reg)))
  }
}

/** The configuration and simulation state of model.py's `JournalModel`, with the small queries
    its daily phases share: token gating, the submission deficit, review-time tables,
    acceptance probabilities and the yearly review cap. */
module Journal {

  import opened Basics
  import opened Tables
  import opened Agents
  import opened Rolling

  /** The constructor arguments of `JournalModel` that the core reads. `stableCap` is the cap
      `int(365 * daily_submission_prob * (3 - prob_2_reviews))`, computed in floating point by
      the source and taken here as given. */
  datatype Config = Config(
    numAuthors: int,
    initialTokens: int,
    dailySubmissionProb: real,
    prob2Reviews: real,
    probAcceptLazy: real,
    probAcceptEager: real,
    noTokensToSubmit: bool,
    invitesPerReview: int,
    graceDays: int,
    capsFromDistribution: bool,
    stableCap: int)

  /** The metrics exposed after each day. */
  datatype Snapshot = Snapshot(
    revTime1y: real,
    revTime1m: real,
    invites1y: real,
    invites1m: real,
    missingReviewers: int)

  /** The whole simulation: `global_step`, `next_paper_id`, the researchers indexed by their id,
      the active registry (`submitted_papers` in order; `submitted_papers_dict` is the same
      papers keyed by id), the two per-day accumulators and the last snapshot. */
  datatype Sim = Sim(
    cfg: Config,
    day: int,
    nextPaperId: int,
    researchers: seq<Researcher>,
    registry: seq<Paper>,
    revTime: Ledger,
    invites: Ledger,
    snapshot: Snapshot)

  /** `tokens_needed_to_submit`: gating is on unless globally disabled, and only once the grace
      period has passed. */
  predicate TokensNeeded(cfg: Config, day: int) {
    if cfg.noTokensToSubmit then false else day - cfg.graceDays > 0
  }

  /** The summed required review counts of a list of papers. */
  function SumReviews(ps: seq<Paper>): int {
    if ps == [] then 0 else ps[0].numReviews + SumReviews(ps[1..])
  }

  lemma {:induction false} SumReviewsAppend(ps: seq<Paper>, qs: seq<Paper>)
    ensures SumReviews(ps + qs) == SumReviews(ps) + SumReviews(qs)
  {
    if ps != [] {
      assert (ps + qs)[1..] == ps[1..] + qs;
      SumReviewsAppend(ps[1..], qs);
    } else {
      assert ps + qs == qs;
    }
  }

  /** `get_author_tokens_to_submit`. */
  function TokensToSubmit(cfg: Config, day: int, r: Researcher): int {
    if !TokensNeeded(cfg, day) then 0 else SumReviews(r.toSubmit)
  }

  /** The tokens still missing to submit every queued paper. */
  function Deficit(cfg: Config, day: int, r: Researcher): int {
    TokensToSubmit(cfg, day, r) - r.tokens
  }

  /** `author_needs_reviews_to_publish`. */
  predicate NeedsReviewsToPublish(cfg: Config, day: int, r: Researcher) {
    Deficit(cfg, day, r) > 0
  }

  /** While gating is inactive, a researcher with a non-negative balance never needs reviews
      to publish, whatever its queue holds. */
  lemma UngatedNeedsNothing(cfg: Config, day: int, r: Researcher)
    requires !TokensNeeded(cfg, day) && r.tokens >= 0
    ensures !NeedsReviewsToPublish(cfg, day, r)
  {
  }

  /** `review_time["L"]`: the empirical Lazy review-duration table (days, cumulative share). */
  const ReviewTimeLazy: Table := [
    Row(10, 0.063), Row(20, 0.107), Row(30, 0.145), Row(40, 0.201), Row(50, 0.289),
    Row(60, 0.358), Row(70, 0.440), Row(80, 0.503), Row(90, 0.767), Row(100, 0.843),
    Row(110, 0.899), Row(120, 0.931), Row(130, 0.950), Row(140, 0.969), Row(170, 0.981),
    Row(180, 0.987), Row(200, 1.000)]

  /** `review_time["E"]`: an Eager reviewer always takes 7 days before jitter. */
  const ReviewTimeEager: Table := [Row(7, 1.000)]

  function ReviewTime(s: Status): (t: Table)
    ensures t != [] && Ascending(t)
    ensures forall i :: 0 <= i < |t| ==> t[i].key >= 7
  {
    match s
    case Lazy => ReviewTimeLazy
    case Eager => ReviewTimeEager
  }

  /** Every sampled review duration is a key of the status' table and lasts at least a week. */
  lemma ReviewDelayAtLeastWeek(s: Status, n: real)
    ensures CoinToss(ReviewTime(s), n) in Keys(ReviewTime(s))
    ensures CoinToss(ReviewTime(s), n) >= 7
  {
  }

  /** `prob_accept_review_invitation[status]`. */
  function AcceptProbability(cfg: Config, s: Status): real {
    match s
    case Lazy => cfg.probAcceptLazy
    case Eager => cfg.probAcceptEager
  }

  /** The commitments accepted on or after `since`, in their original order: the filter both of
      `clear_researcher_papers` and of the counts in `get_reviewers_reviews_in_timeframe`. */
  function Recent(cs: seq<Commitment>, since: int): (r: seq<Commitment>)
    ensures |r| <= |cs|
    ensures forall c :: c in r <==> c in cs && c.accepted >= since
  {
    if cs == [] then []
    else if cs[0].accepted >= since then [cs[0]] + Recent(cs[1..], since)
    else Recent(cs[1..], since)
  }

  lemma {:induction false} RecentAppend(cs: seq<Commitment>, ds: seq<Commitment>, since: int)
    ensures Recent(cs + ds, since) == Recent(cs, since) + Recent(ds, since)
  {
    if cs != [] {
      assert (cs + ds)[1..] == cs[1..] + ds;
      RecentAppend(cs[1..], ds, since);
    } else {
      assert cs + ds == ds;
    }
  }

  /** `get_reviewers_reviews_in_timeframe`: the pending plus completed reviews accepted within
      the trailing 365 days. */
  function ReviewsInTimeframe(day: int, r: Researcher): nat {
    |Recent(r.toReview, day - 365)| + |Recent(r.reviewsDone, day - 365)|
  }

  /** `reviewer_can_review`: the cap is disabled (0), or the reviewer is Eager, or it is still
      below its yearly cap. */
  predicate CanReview(day: int, r: Researcher) {
    r.maxYearly == 0 || r.status == Eager || ReviewsInTimeframe(day, r) < r.maxYearly
  }

  /** A Lazy reviewer with a cap is refused exactly when its trailing-year reviews reach the cap. */
  lemma CapBlocksLazy(day: int, r: Researcher)
    requires r.status == Lazy && r.maxYearly != 0
    ensures !CanReview(day, r) <==> ReviewsInTimeframe(day, r) >= r.maxYearly
  {
  }

  /** Accepting a review today counts against the cap at once: the trailing-year count grows by one. */
  lemma {:induction false} AcceptanceCountsTowardCap(day: int, r: Researcher, c: Commitment)
    requires c.accepted == day
    ensures ReviewsInTimeframe(day, r.(toReview := r.toReview + [c])) == ReviewsInTimeframe(day, r) + 1
  {
    RecentAppend(r.toReview, [c], day - 365);
    assert Recent([c], day - 365) == [c] + Recent([], day - 365);
  }
}

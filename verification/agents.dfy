/** The passive records of agents.py: researchers, papers and the entries they hold. */
module Agents {

  import opened Basics

  /** A researcher's behavioural mode: the "L" / "E" flag of the source. */
  datatype Status = Lazy | Eager

  /** An accepted review, as the tuple (paper_id, scheduled_step, done_by_status, accepted_step). */
  datatype Commitment = Commitment(paperId: int, scheduled: int, doneBy: Status, accepted: int)

  /** The completion day a reviewer slot holds while its review is outstanding. */
  const PENDING: int := -1

  /** A reviewer slot of a paper, as the pair (reviewer id, completion day or PENDING). */
  datatype Slot = Slot(reviewer: nat, done: int)

  datatype Paper = Paper(
    id: int,
    generation: int,
    submission: Option<int>,
    author: nat,
    numReviews: int,
    reviewers: seq<Slot>,
    numInvites: int)

  datatype Researcher = Researcher(
    id: nat,
    status: Status,
    prevStatus: Status,
    tokens: int,
    toSubmit: seq<Paper>,
    toReview: seq<Commitment>,
    reviewsDone: seq<Commitment>,
    submitted: seq<Paper>,
    maxYearly: int)

  /** No slot of the paper still waits for its review. */
  predicate AllReviewed(p: Paper) {
    forall j :: 0 <= j < |p.reviewers| ==> p.reviewers[j].done != PENDING
  }

  /** The paper has fewer reviewer slots than it requires. */
  predicate MissingReviewers(p: Paper) {
    |p.reviewers| < p.numReviews
  }

  /** A researcher as `Researcher.__init__` builds it: Lazy with a Lazy history, holding the
      model's initial tokens, with every queue and history empty, and the given yearly cap. */
  function NewResearcher(id: nat, maxYearly: int, initialTokens: int): (r: Researcher)
    ensures r.id == id && r.maxYearly == maxYearly && r.tokens == initialTokens
    ensures r.status == Lazy && r.prevStatus == Lazy
    ensures r.toSubmit == [] && r.toReview == [] && r.reviewsDone == [] && r.submitted == []
  {
    Researcher(id, Lazy, Lazy, initialTokens, [], [], [], [], maxYearly)
  }

  /** A paper as `Paper.__init__` builds it: it stores the given identity, days, author and
      required review count, holds no reviewer slot and no invite, so it misses every one of
      its reviewers and has no pending review. */
  function NewPaper(id: int, generation: int, submission: Option<int>, author: nat, numReviews: int): (p: Paper)
    ensures p.id == id && p.generation == generation && p.submission == submission
    ensures p.author == author && p.numReviews == numReviews
    ensures p.reviewers == [] && p.numInvites == 0
    ensures MissingReviewers(p) <==> numReviews > 0
    ensures AllReviewed(p)
  {
    Paper(id, generation, submission, author, numReviews, [], 0)
  }
}

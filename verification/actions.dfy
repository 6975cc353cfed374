/** `JournalModel.agent_actions`: one researcher's day, in the source's phase order —
    paper generation, review completion, token-gated submission, Lazy/Eager reevaluation and
    history trimming. Every random call is an explicit draw argument. */
module Actions {

  import opened Basics
  import opened Tables
  import opened Agents
  import opened Rolling
  import opened Journal

  /** The draws of one rescheduling attempt: the duration lookup and the 0..10 jitter. */
  datatype Resched = Resched(time: Unit, jitter: Jitter)

  /** The draws one researcher consumes in a day: the generation trial, the review-count
      lookup (read only when a paper is written) and one `Resched` per visited commitment,
      indexed by the visiting position. */
  datatype ActionDraws = ActionDraws(write: Unit, reviews: Unit, reschedule: nat -> Resched)

  // ---------------------------------------------------------------------------------------
  // Paper generation (model.py:262-277)

  datatype Generated = Generated(agent: Researcher, nextPaperId: int)

  /** With probability `daily_submission_prob` the researcher writes a paper: it takes the next
      paper id, today's generation day, no submission day, 2 or 3 required reviews (2 exactly
      when the review-count draw is at most `prob_2_reviews`), no slots and no invites, and is
      queued last. Otherwise nothing changes. The id counter moves past the id it hands out. */
  function Generate(cfg: Config, day: int, nextId: int, a: Researcher, write: Unit, reviews: Unit): (g: Generated)
    ensures g.agent == a.(toSubmit := g.agent.toSubmit)
    ensures write < cfg.dailySubmissionProb ==>
      && g.nextPaperId == nextId + 1
      && |g.agent.toSubmit| == |a.toSubmit| + 1
      && g.agent.toSubmit[..|a.toSubmit|] == a.toSubmit
      && var p := g.agent.toSubmit[|a.toSubmit|];
         && p.id == nextId && p.id < g.nextPaperId
         && p.generation == day && p.submission == None && p.author == a.id
         && (p.numReviews == 2 || p.numReviews == 3)
         && (p.numReviews == 2 <==> reviews <= cfg.prob2Reviews)
         && p.reviewers == [] && p.numInvites == 0
    ensures !(write < cfg.dailySubmissionProb) ==> g == Generated(a, nextId)
  {
    if write < cfg.dailySubmissionProb then
      TwoOrThreeOutcome(cfg.prob2Reviews, reviews);
      var p := NewPaper(nextId, day, None, a.id, CoinToss(TwoOrThree(cfg.prob2Reviews), reviews));
      assert (a.toSubmit + [p])[..|a.toSubmit|] == a.toSubmit;
      Generated(a.(toSubmit := a.toSubmit + [p]), nextId + 1)
    else
      Generated(a, nextId)
  }

  // ---------------------------------------------------------------------------------------
  // Review completion (model.py:279-302)

  /** `submitted_papers_dict.get(paper_id)`: the registry position holding the id. */
  function FindPaper(reg: seq<Paper>, pid: int, from: nat := 0): (r: Option<nat>)
    requires from <= |reg|
    decreases |reg| - from
    ensures r.Some? ==> from <= r.value < |reg| && reg[r.value].id == pid
    ensures r.Some? ==> forall j :: from <= j < r.value ==> reg[j].id != pid
    ensures r.None? ==> forall j :: from <= j < |reg| ==> reg[j].id != pid
  {
    if from == |reg| then None
    else if reg[from].id == pid then Some(from)
    else FindPaper(reg, pid, from + 1)
  }

  /** The lookup reads only paper ids, so replacing a paper by one with the same id keeps it. */
  lemma {:induction false} FindPaperSameIds(reg: seq<Paper>, reg': seq<Paper>, pid: int, from: nat := 0)
    requires from <= |reg| == |reg'|
    requires forall j :: 0 <= j < |reg| ==> reg[j].id == reg'[j].id
    ensures FindPaper(reg, pid, from) == FindPaper(reg', pid, from)
    decreases |reg| - from
  {
    if from < |reg| {
      FindPaperSameIds(reg, reg', pid, from + 1);
    }
  }

  /** Sets every slot of reviewer `id` to the completion day. */
  function MarkSlots(slots: seq<Slot>, id: nat, day: int): (r: seq<Slot>)
    ensures |r| == |slots|
    ensures forall j :: 0 <= j < |slots| ==>
      r[j] == if slots[j].reviewer == id then Slot(id, day) else slots[j]
  {
    if slots == [] then []
    else [if slots[0].reviewer == id then Slot(id, day) else slots[0]] + MarkSlots(slots[1..], id, day)
  }

  /** The number of slots held by reviewer `id`. */
  function CountSlots(slots: seq<Slot>, id: nat): nat {
    if slots == [] then 0
    else (if slots[0].reviewer == id then 1 else 0) + CountSlots(slots[1..], id)
  }

  lemma {:induction false} MarkKeepsCount(slots: seq<Slot>, id: nat, day: int)
    ensures CountSlots(MarkSlots(slots, id, day), id) == CountSlots(slots, id)
  {
    if slots != [] {
      assert MarkSlots(slots, id, day)[1..] == MarkSlots(slots[1..], id, day);
      MarkKeepsCount(slots[1..], id, day);
    }
  }

  function Mark(p: Paper, id: nat, day: int): Paper {
    p.(reviewers := MarkSlots(p.reviewers, id, day))
  }

  lemma MarkIdempotent(p: Paper, id: nat, day: int)
    ensures Mark(Mark(p, id, day), id, day) == Mark(p, id, day)
  {
  }

  /** The commitments scheduled for `day`, in queue order. */
  function Due(cs: seq<Commitment>, day: int): (r: seq<Commitment>)
    ensures |r| <= |cs|
    ensures forall c :: c in r <==> c in cs && c.scheduled == day
  {
    if cs == [] then []
    else if cs[0].scheduled == day then [cs[0]] + Due(cs[1..], day)
    else Due(cs[1..], day)
  }

  /** The commitments scheduled for any other day, in queue order. */
  function NotDue(cs: seq<Commitment>, day: int): (r: seq<Commitment>)
    ensures |r| <= |cs|
    ensures forall c :: c in r <==> c in cs && c.scheduled != day
  {
    if cs == [] then []
    else if cs[0].scheduled == day then NotDue(cs[1..], day)
    else [cs[0]] + NotDue(cs[1..], day)
  }

  /** Both filters distribute over concatenation, so they keep the queue's order. */
  lemma {:induction false} DueAppend(cs: seq<Commitment>, ds: seq<Commitment>, day: int)
    ensures Due(cs + ds, day) == Due(cs, day) + Due(ds, day)
  {
    if cs != [] {
      assert (cs + ds)[1..] == cs[1..] + ds;
      DueAppend(cs[1..], ds, day);
    } else {
      assert cs + ds == ds;
    }
  }

  lemma {:induction false} NotDueAppend(cs: seq<Commitment>, ds: seq<Commitment>, day: int)
    ensures NotDue(cs + ds, day) == NotDue(cs, day) + NotDue(ds, day)
  {
    if cs != [] {
      assert (cs + ds)[1..] == cs[1..] + ds;
      NotDueAppend(cs[1..], ds, day);
    } else {
      assert cs + ds == ds;
    }
  }

  /** Every commitment of the queue is due or not, once: as multisets the two filters split
      the queue, so each due commitment moves to `reviews_done` exactly as often as it occurs. */
  lemma {:induction false} DuePartition(cs: seq<Commitment>, day: int)
    ensures multiset(Due(cs, day)) + multiset(NotDue(cs, day)) == multiset(cs)
  {
    if cs != [] {
      var h, tail := cs[0], cs[1..];
      DuePartition(tail, day);
      assert cs == [h] + tail;
      if h.scheduled == day {
        assert Due(cs, day) == [h] + Due(tail, day) && NotDue(cs, day) == NotDue(tail, day);
        ConsLeft(h, Due(tail, day), NotDue(tail, day), tail);
      } else {
        assert Due(cs, day) == Due(tail, day) && NotDue(cs, day) == [h] + NotDue(tail, day);
        ConsRight(h, Due(tail, day), NotDue(tail, day), tail);
      }
    }
  }

  /** The source appends each due commitment to `reviews_done` and then removes it from
      `papers_to_review` with `list.remove`; that leaves exactly the commitments not due today,
      in their order, even when equal tuples occur. */
  lemma {:induction false} RemovingDueLeavesNotDue(cs: seq<Commitment>, day: int)
    ensures RemoveEach(cs, Due(cs, day)) == NotDue(cs, day)
  {
    if cs == [] {
    } else if cs[0].scheduled == day {
      assert Due(cs, day) == [cs[0]] + Due(cs[1..], day);
      assert RemoveFirst(cs, cs[0]) == cs[1..];
      assert Due(cs, day)[1..] == Due(cs[1..], day);
      RemovingDueLeavesNotDue(cs[1..], day);
    } else {
      assert cs[0] !in Due(cs[1..], day);
      assert cs == [cs[0]] + cs[1..];
      RemoveEachKeepsHead(cs[0], cs[1..], Due(cs[1..], day));
      RemovingDueLeavesNotDue(cs[1..], day);
    }
  }

  /** The state the completion loop threads: the registry, the balance and the duration ledger. */
  datatype Completion = Completion(registry: seq<Paper>, tokens: int, revTime: Ledger)

  /** One commitment of the loop. A due commitment whose paper is registered marks each slot of
      the reviewer with today, credits one token per such slot while gating is active, and adds
      one review and its days since acceptance to today's accumulator per slot. A due commitment
      whose paper is missing is skipped (the source only logs it). */
  function CompleteOne(cfg: Config, day: int, id: nat, c: Commitment, st: Completion): Completion
    requires day in Days(st.revTime)
  {
    if c.scheduled != day then st
    else match FindPaper(st.registry, c.paperId)
      case None => st
      case Some(k) =>
        var m := CountSlots(st.registry[k].reviewers, id);
        Completion(
          st.registry[k := Mark(st.registry[k], id, day)],
          st.tokens + (if TokensNeeded(cfg, day) then m else 0),
          Add(st.revTime, day, m, m * (day - c.accepted)))
  }

  function CompleteAll(cfg: Config, day: int, id: nat, cs: seq<Commitment>, st: Completion): Completion
    requires day in Days(st.revTime)
    decreases |cs|
  {
    if cs == [] then st
    else
      var st1 := CompleteOne(cfg, day, id, cs[0], st);
      CompleteAll(cfg, day, id, cs[1..], st1)
  }

  /** The slots of reviewer `id` on the registered paper a commitment resolves to, if it is due. */
  function MatchesOf(reg: seq<Paper>, c: Commitment, day: int, id: nat): nat {
    if c.scheduled != day then 0
    else match FindPaper(reg, c.paperId)
      case None => 0
      case Some(k) => CountSlots(reg[k].reviewers, id)
  }

  /** Reference totals over the registry as it stood before the loop: the reviewer's matched
      slots, and the matched slots weighted by each commitment's days since acceptance. */
  function Matches(reg: seq<Paper>, cs: seq<Commitment>, day: int, id: nat): nat {
    if cs == [] then 0 else MatchesOf(reg, cs[0], day, id) + Matches(reg, cs[1..], day, id)
  }

  function Durations(reg: seq<Paper>, cs: seq<Commitment>, day: int, id: nat): int {
    if cs == [] then 0
    else MatchesOf(reg, cs[0], day, id) * (day - cs[0].accepted) + Durations(reg, cs[1..], day, id)
  }

  /** Some commitment due today resolves to registry position `k`. */
  predicate Targeted(reg: seq<Paper>, cs: seq<Commitment>, day: int, k: nat) {
    exists c :: c in cs && c.scheduled == day && FindPaper(reg, c.paperId) == Some(k)
  }

  /** Marking one paper changes neither what commitments resolve to nor how many slots match. */
  lemma {:induction false} MarkKeepsReference(reg: seq<Paper>, k: nat, cs: seq<Commitment>, day: int, id: nat)
    requires k < |reg|
    ensures var reg' := reg[k := Mark(reg[k], id, day)];
      && Matches(reg', cs, day, id) == Matches(reg, cs, day, id)
      && Durations(reg', cs, day, id) == Durations(reg, cs, day, id)
      && forall j :: 0 <= j < |reg| ==> (Targeted(reg', cs, day, j) <==> Targeted(reg, cs, day, j))
  {
    var reg' := reg[k := Mark(reg[k], id, day)];
    forall pid ensures FindPaper(reg', pid) == FindPaper(reg, pid) {
      FindPaperSameIds(reg, reg', pid);
    }
    MarkKeepsCount(reg[k].reviewers, id, day);
    if cs != [] {
      assert MatchesOf(reg', cs[0], day, id) == MatchesOf(reg, cs[0], day, id);
      MarkKeepsReference(reg, k, cs[1..], day, id);
    }
  }

  lemma TargetedCons(reg: seq<Paper>, cs: seq<Commitment>, day: int, k: nat)
    requires cs != []
    ensures Targeted(reg, cs, day, k) <==>
      (cs[0].scheduled == day && FindPaper(reg, cs[0].paperId) == Some(k)) || Targeted(reg, cs[1..], day, k)
  {
    if Targeted(reg, cs, day, k) {
      var c :| c in cs && c.scheduled == day && FindPaper(reg, c.paperId) == Some(k);
      if c != cs[0] { assert c in cs[1..]; }
    }
  }

  /** The registry after the loop: each paper some due commitment resolves to has every slot of
      the reviewer set to today; every other paper is untouched. */
  lemma {:induction false} CompleteAllRegistry(cfg: Config, day: int, id: nat, cs: seq<Commitment>, st: Completion)
    requires day in Days(st.revTime)
    ensures var r := CompleteAll(cfg, day, id, cs, st);
      && |r.registry| == |st.registry|
      && forall k :: 0 <= k < |st.registry| ==>
           r.registry[k] == if Targeted(st.registry, cs, day, k) then Mark(st.registry[k], id, day) else st.registry[k]
    decreases |cs|
  {
    if cs == [] {
      forall k | 0 <= k < |st.registry| ensures !Targeted(st.registry, cs, day, k) {}
    } else {
      var st1 := CompleteOne(cfg, day, id, cs[0], st);
      CompleteAllRegistry(cfg, day, id, cs[1..], st1);
      forall j | 0 <= j < |st.registry| {
        TargetedCons(st.registry, cs, day, j);
      }
      if cs[0].scheduled == day && FindPaper(st.registry, cs[0].paperId).Some? {
        var k := FindPaper(st.registry, cs[0].paperId).value;
        MarkKeepsReference(st.registry, k, cs[1..], day, id);
        MarkIdempotent(st.registry[k], id, day);
      }
    }
  }

  /** The balance after the loop: one token per matched slot while gating is active. */
  lemma {:induction false} CompleteAllTokens(cfg: Config, day: int, id: nat, cs: seq<Commitment>, st: Completion)
    requires day in Days(st.revTime)
    ensures CompleteAll(cfg, day, id, cs, st).tokens
         == st.tokens + (if TokensNeeded(cfg, day) then Matches(st.registry, cs, day, id) else 0)
    decreases |cs|
  {
    if cs != [] {
      var st1 := CompleteOne(cfg, day, id, cs[0], st);
      CompleteAllTokens(cfg, day, id, cs[1..], st1);
      if cs[0].scheduled == day && FindPaper(st.registry, cs[0].paperId).Some? {
        MarkKeepsReference(st.registry, FindPaper(st.registry, cs[0].paperId).value, cs[1..], day, id);
      }
    }
  }

  /** The duration ledger after the loop: today's entry gains one review per matched slot and
      the matching days since acceptance. */
  lemma {:induction false} CompleteAllLedger(cfg: Config, day: int, id: nat, cs: seq<Commitment>, st: Completion)
    requires day in Days(st.revTime)
    ensures var r := CompleteAll(cfg, day, id, cs, st);
      && day in Days(r.revTime)
      && Get(r.revTime, day) == Some(Plus(Get(st.revTime, day).value,
                                         Acc(Matches(st.registry, cs, day, id), Durations(st.registry, cs, day, id))))
    decreases |cs|
  {
    var a := Get(st.revTime, day).value;
    if cs == [] {
      assert Plus(a, Acc(0, 0)) == a;
    } else {
      var st1 := CompleteOne(cfg, day, id, cs[0], st);
      CompleteAllLedger(cfg, day, id, cs[1..], st1);
      TotalsCons(st.registry, cs, day, id);
      CompleteOneLedger(cfg, day, id, cs[0], st, cs[1..]);
      var m := MatchesOf(st.registry, cs[0], day, id);
      var head := Acc(m, m * (day - cs[0].accepted));
      var tail := Acc(Matches(st.registry, cs[1..], day, id), Durations(st.registry, cs[1..], day, id));
      assert CompleteAll(cfg, day, id, cs, st) == CompleteAll(cfg, day, id, cs[1..], st1);
      assert Plus(head, tail) == Acc(Matches(st.registry, cs, day, id), Durations(st.registry, cs, day, id));
      PlusAssoc(a, head, tail);
    }
  }

  /** One commitment adds its own matched slots and weighted days to today's entry, and leaves
      the reference totals of the later commitments as they were. */
  lemma CompleteOneLedger(cfg: Config, day: int, id: nat, c: Commitment, st: Completion, later: seq<Commitment>)
    requires day in Days(st.revTime)
    ensures var st1 := CompleteOne(cfg, day, id, c, st);
      var m := MatchesOf(st.registry, c, day, id);
      && Get(st1.revTime, day) == Some(Plus(Get(st.revTime, day).value, Acc(m, m * (day - c.accepted))))
      && Matches(st1.registry, later, day, id) == Matches(st.registry, later, day, id)
      && Durations(st1.registry, later, day, id) == Durations(st.registry, later, day, id)
  {
    if c.scheduled == day && FindPaper(st.registry, c.paperId).Some? {
      MarkKeepsReference(st.registry, FindPaper(st.registry, c.paperId).value, later, day, id);
    }
  }

  lemma TotalsCons(reg: seq<Paper>, cs: seq<Commitment>, day: int, id: nat)
    requires cs != []
    ensures Matches(reg, cs, day, id) == MatchesOf(reg, cs[0], day, id) + Matches(reg, cs[1..], day, id)
    ensures Durations(reg, cs, day, id)
         == MatchesOf(reg, cs[0], day, id) * (day - cs[0].accepted) + Durations(reg, cs[1..], day, id)
  {
  }

  /** The loop touches no other day of the ledger and keeps it a dict with non-negative counts. */
  lemma {:induction false} CompleteAllLedgerFrame(cfg: Config, day: int, id: nat, cs: seq<Commitment>, st: Completion)
    requires day in Days(st.revTime)
    ensures var r := CompleteAll(cfg, day, id, cs, st);
      && Days(r.revTime) == Days(st.revTime)
      && (forall d :: d != day ==> Get(r.revTime, d) == Get(st.revTime, d))
      && (UniqueDays(st.revTime) ==> UniqueDays(r.revTime))
      && (NonNegative(st.revTime) ==> NonNegative(r.revTime))
    decreases |cs|
  {
    if cs != [] {
      CompleteAllLedgerFrame(cfg, day, id, cs[1..], CompleteOne(cfg, day, id, cs[0], st));
    }
  }

  datatype Completed = Completed(agent: Researcher, registry: seq<Paper>, revTime: Ledger)

  /** The review-completion phase: due commitments move, in order, from the review queue to the
      completed reviews; later ones stay queued; the balance and the registry change as the
      loop's specification says. */
  function CompleteReviews(cfg: Config, day: int, a: Researcher, reg: seq<Paper>, led: Ledger): (r: Completed)
    requires day in Days(led)
    ensures r.agent == a.(tokens := r.agent.tokens, toReview := r.agent.toReview, reviewsDone := r.agent.reviewsDone)
    ensures r.agent.toReview == NotDue(a.toReview, day)
    ensures r.agent.reviewsDone == a.reviewsDone + Due(a.toReview, day)
    ensures r.agent.tokens == a.tokens + (if TokensNeeded(cfg, day) then Matches(reg, a.toReview, day, a.id) else 0)
    ensures |r.registry| == |reg|
    ensures forall k :: 0 <= k < |reg| ==>
      r.registry[k] == if Targeted(reg, a.toReview, day, k) then Mark(reg[k], a.id, day) else reg[k]
    ensures Days(r.revTime) == Days(led)
    ensures Get(r.revTime, day) == Some(Plus(Get(led, day).value,
                                             Acc(Matches(reg, a.toReview, day, a.id), Durations(reg, a.toReview, day, a.id))))
    ensures forall d :: d != day ==> Get(r.revTime, d) == Get(led, d)
    ensures UniqueDays(led) ==> UniqueDays(r.revTime)
    ensures NonNegative(led) ==> NonNegative(r.revTime)
  {
    var st := Completion(reg, a.tokens, led);
    CompleteAllRegistry(cfg, day, a.id, a.toReview, st);
    CompleteAllTokens(cfg, day, a.id, a.toReview, st);
    CompleteAllLedger(cfg, day, a.id, a.toReview, st);
    CompleteAllLedgerFrame(cfg, day, a.id, a.toReview, st);
    var done := CompleteAll(cfg, day, a.id, a.toReview, st);
    Completed(
      a.(tokens := done.tokens, toReview := NotDue(a.toReview, day), reviewsDone := a.reviewsDone + Due(a.toReview, day)),
      done.registry,
      done.revTime)
  }


  // ---------------------------------------------------------------------------------------
  // Submission and token spend (model.py:304-325)

  /** The queue with every paper given today as its submission day. */
  function Stamp(ps: seq<Paper>, day: int): (r: seq<Paper>)
    ensures |r| == |ps|
  {
    if ps == [] then [] else [ps[0].(submission := Some(day))] + Stamp(ps[1..], day)
  }

  /** What the submission loop leaves: the papers still queued, the papers submitted (in queue
      order, stamped with today) and the balance. */
  datatype Submission = Submission(queued: seq<Paper>, sent: seq<Paper>, tokens: int)

  /** Every paper of the list requires a non-negative number of reviews. */
  predicate CountsNonNegative(ps: seq<Paper>) {
    forall q :: q in ps ==> q.numReviews >= 0
  }

  /** The submission loop over the queue. Without gating every paper goes and the balance is
      untouched. With gating a paper goes only if its required review count is within the
      current balance, which then drops by that count, so a non-negative balance stays
      non-negative; a paper that cannot go does not stop the scan, so every paper left queued
      needs more tokens than remain. */
  function SubmitQueue(gated: bool, day: int, ps: seq<Paper>, tokens: int): (r: Submission)
    ensures !gated ==> r.queued == [] && r.sent == Stamp(ps, day) && r.tokens == tokens
    ensures gated ==> r.tokens == tokens - SumReviews(r.sent)
    ensures tokens >= 0 ==> r.tokens >= 0
    ensures gated && CountsNonNegative(ps) ==>
      r.tokens <= tokens && forall q :: q in r.queued ==> q.numReviews > r.tokens
    decreases |ps|
  {
    if ps == [] then Submission([], [], tokens)
    else
      var p := ps[0];
      assert CountsNonNegative(ps) ==> CountsNonNegative(ps[1..]) by {
        forall q | q in ps[1..] ensures q in ps {}
      }
      if !gated || p.numReviews <= tokens then
        var rest := SubmitQueue(gated, day, ps[1..], if gated then tokens - p.numReviews else tokens);
        var sent := [p.(submission := Some(day))] + rest.sent;
        assert sent[1..] == rest.sent;
        Submission(rest.queued, sent, rest.tokens)
      else
        var rest := SubmitQueue(gated, day, ps[1..], tokens);
        Submission([p] + rest.queued, rest.sent, rest.tokens)
  }

  /** The papers left queued come from the queue unchanged, and the submitted ones carry
      today's submission day. */
  lemma {:induction false} SubmitQueueMembers(gated: bool, day: int, ps: seq<Paper>, tokens: int)
    ensures var r := SubmitQueue(gated, day, ps, tokens);
      && (forall q :: q in r.queued ==> q in ps)
      && (forall q :: q in r.sent ==> q.submission == Some(day))
    decreases |ps|
  {
    if ps != [] {
      var p := ps[0];
      var t := if !gated || p.numReviews <= tokens then (if gated then tokens - p.numReviews else tokens) else tokens;
      SubmitQueueMembers(gated, day, ps[1..], t);
      forall q | q in ps[1..] ensures q in ps {}
    }
  }

  /** The loop splits the queue: the submitted papers and the papers left queued, once stamped,
      are exactly the queue stamped. */
  lemma {:induction false} SubmitQueuePartition(gated: bool, day: int, ps: seq<Paper>, tokens: int)
    ensures var r := SubmitQueue(gated, day, ps, tokens);
      multiset(r.sent) + multiset(Stamp(r.queued, day)) == multiset(Stamp(ps, day))
    decreases |ps|
  {
    if ps != [] {
      var p := ps[0];
      var h := p.(submission := Some(day));
      StampCons(p, ps[1..], day);
      assert ps == [p] + ps[1..];
      assert Stamp(ps, day) == [h] + Stamp(ps[1..], day);
      if !gated || p.numReviews <= tokens {
        var t := if gated then tokens - p.numReviews else tokens;
        SubmitQueuePartition(gated, day, ps[1..], t);
        var rest := SubmitQueue(gated, day, ps[1..], t);
        SentHead(gated, day, ps, tokens);
        ConsLeft(h, rest.sent, Stamp(rest.queued, day), Stamp(ps[1..], day));
      } else {
        SubmitQueuePartition(gated, day, ps[1..], tokens);
        var rest := SubmitQueue(gated, day, ps[1..], tokens);
        SkippedHead(gated, day, ps, tokens);
        StampCons(p, rest.queued, day);
        ConsRight(h, rest.sent, Stamp(rest.queued, day), Stamp(ps[1..], day));
      }
    }
  }

  /** The loop read one paper at a time, as the source's `for` runs: appending a paper to the
      queue leaves the earlier papers' outcome alone, and the new paper is sent exactly when
      gating is off or its review count is within the balance the earlier papers left; a sent
      paper is stamped, goes last, and (under gating) costs its review count; a paper that cannot
      go stays queued, last, and costs nothing. */
  lemma {:induction false} SubmitQueueStep(gated: bool, day: int, ps: seq<Paper>, p: Paper, tokens: int)
    ensures var q := SubmitQueue(gated, day, ps, tokens);
      SubmitQueue(gated, day, ps + [p], tokens) ==
        if !gated || p.numReviews <= q.tokens
        then Submission(q.queued, q.sent + [p.(submission := Some(day))], if gated then q.tokens - p.numReviews else q.tokens)
        else Submission(q.queued + [p], q.sent, q.tokens)
    decreases |ps|
  {
    var q := SubmitQueue(gated, day, ps, tokens);
    var p' := p.(submission := Some(day));
    if ps == [] {
      assert ps + [p] == [p] + [];
      SubmitCons(gated, day, p, [], tokens);
    } else {
      var h := ps[0];
      var h' := h.(submission := Some(day));
      var tail := ps[1..];
      assert ps == [h] + tail;
      assert ps + [p] == [h] + (tail + [p]);
      var t := if !gated || h.numReviews <= tokens then (if gated then tokens - h.numReviews else tokens) else tokens;
      SubmitQueueStep(gated, day, tail, p, t);
      SubmitCons(gated, day, h, tail, tokens);
      SubmitCons(gated, day, h, tail + [p], tokens);
      var rest := SubmitQueue(gated, day, tail, t);
      if !gated || h.numReviews <= tokens {
        Regroup(h', rest.sent, p');
      } else {
        Regroup(h, rest.queued, p);
      }
    }
  }

  /** One step of the loop on a queue with a known head. */
  lemma SubmitCons(gated: bool, day: int, h: Paper, tail: seq<Paper>, tokens: int)
    ensures SubmitQueue(gated, day, [h] + tail, tokens) ==
      if !gated || h.numReviews <= tokens then
        var rest := SubmitQueue(gated, day, tail, if gated then tokens - h.numReviews else tokens);
        Submission(rest.queued, [h.(submission := Some(day))] + rest.sent, rest.tokens)
      else
        var rest := SubmitQueue(gated, day, tail, tokens);
        Submission([h] + rest.queued, rest.sent, rest.tokens)
  {
    assert ([h] + tail)[0] == h && ([h] + tail)[1..] == tail;
  }

  lemma Regroup<T>(h: T, xs: seq<T>, x: T)
    ensures [h] + (xs + [x]) == ([h] + xs) + [x]
  {
  }

  lemma ConsLeft<T>(h: T, a: seq<T>, b: seq<T>, c: seq<T>)
    requires multiset(a) + multiset(b) == multiset(c)
    ensures multiset([h] + a) + multiset(b) == multiset([h] + c)
  {
  }

  lemma ConsRight<T>(h: T, a: seq<T>, b: seq<T>, c: seq<T>)
    requires multiset(a) + multiset(b) == multiset(c)
    ensures multiset(a) + multiset([h] + b) == multiset([h] + c)
  {
  }

  lemma StampCons(p: Paper, ps: seq<Paper>, day: int)
    ensures Stamp([p] + ps, day) == [p.(submission := Some(day))] + Stamp(ps, day)
  {
    assert ([p] + ps)[1..] == ps;
  }

  lemma SentHead(gated: bool, day: int, ps: seq<Paper>, tokens: int)
    requires ps != [] && (!gated || ps[0].numReviews <= tokens)
    ensures var rest := SubmitQueue(gated, day, ps[1..], if gated then tokens - ps[0].numReviews else tokens);
      var r := SubmitQueue(gated, day, ps, tokens);
      r.sent == [ps[0].(submission := Some(day))] + rest.sent && r.queued == rest.queued && r.tokens == rest.tokens
  {
  }

  lemma SkippedHead(gated: bool, day: int, ps: seq<Paper>, tokens: int)
    requires ps != [] && !(!gated || ps[0].numReviews <= tokens)
    ensures var rest := SubmitQueue(gated, day, ps[1..], tokens);
      var r := SubmitQueue(gated, day, ps, tokens);
      r.sent == rest.sent && r.queued == [ps[0]] + rest.queued && r.tokens == rest.tokens
  {
  }

  datatype Submitted = Submitted(agent: Researcher, registry: seq<Paper>)

  /** The submission phase: the submitted papers leave the queue and are appended, in order,
      both to the active registry and to the researcher's submitted list. */
  function SubmitPapers(cfg: Config, day: int, a: Researcher, reg: seq<Paper>): (r: Submitted)
    ensures var s := SubmitQueue(TokensNeeded(cfg, day), day, a.toSubmit, a.tokens);
      && r.agent == a.(toSubmit := s.queued, submitted := a.submitted + s.sent, tokens := s.tokens)
      && r.registry == reg + s.sent
  {
    var s := SubmitQueue(TokensNeeded(cfg, day), day, a.toSubmit, a.tokens);
    Submitted(a.(toSubmit := s.queued, submitted := a.submitted + s.sent, tokens := s.tokens), reg + s.sent)
  }

  // ---------------------------------------------------------------------------------------
  // Lazy/Eager reevaluation (model.py:327-356)

  /** The number of positions where the second queue is scheduled strictly earlier. */
  function CountEarlier(xs: seq<Commitment>, ys: seq<Commitment>): nat
    requires |xs| == |ys|
  {
    if xs == [] then 0
    else (if ys[0].scheduled < xs[0].scheduled then 1 else 0) + CountEarlier(xs[1..], ys[1..])
  }

  /** The rescheduling loop's result: the queue, the remaining deficit and how many
      commitments it visited. */
  datatype Rescheduled = Rescheduled(commitments: seq<Commitment>, need: int, visited: nat)

  /** The rescheduling loop from queue position `offset` on: while a deficit remains, the next
      commitment draws a prospective day (today + a duration from `table` + jitter); it is moved
      to that day when that is strictly earlier, which pays one unit of deficit, and is tagged
      Eager either way. */
  function Reschedule(day: int, table: Table, cs: seq<Commitment>, need: int, draws: nat -> Resched, offset: nat): (r: Rescheduled)
    requires table != [] && Ascending(table)
    ensures |r.commitments| == |cs| && r.visited <= |cs|
    ensures need <= 0 ==> r == Rescheduled(cs, need, 0)
    decreases |cs|
  {
    if cs == [] || need <= 0 then Rescheduled(cs, need, 0)
    else
      var rest := Reschedule(day, table, cs[1..], if Moves(day, table, cs[0], draws(offset)) then need - 1 else need, draws, offset + 1);
      Rescheduled([Visit(day, table, cs[0], draws(offset))] + rest.commitments, rest.need, rest.visited + 1)
  }

  /** The prospective day a draw gives: today plus a duration from `table` plus the jitter. */
  function Prospect(day: int, table: Table, d: Resched): (t: int)
    requires table != [] && Ascending(table)
    ensures t >= day + table[0].key + d.jitter
  {
    day + CoinToss(table, d.time) + d.jitter
  }

  /** Whether the prospective day is strictly earlier than the commitment's. */
  predicate Moves(day: int, table: Table, c: Commitment, d: Resched)
    requires table != [] && Ascending(table)
  {
    c.scheduled > Prospect(day, table, d)
  }

  /** A visited commitment: moved to the prospective day when that is earlier, tagged Eager
      either way. */
  function Visit(day: int, table: Table, c: Commitment, d: Resched): (c': Commitment)
    requires table != [] && Ascending(table)
    ensures c'.paperId == c.paperId && c'.accepted == c.accepted && c'.doneBy == Eager
    ensures c'.scheduled <= c.scheduled
    ensures c'.scheduled < c.scheduled <==> Moves(day, table, c, d)
    ensures Moves(day, table, c, d) ==> c'.scheduled == Prospect(day, table, d)
  {
    if Moves(day, table, c, d) then Commitment(c.paperId, Prospect(day, table, d), Eager, c.accepted)
    else c.(doneBy := Eager)
  }

  /** What rescheduling does to each commitment: identity, acceptance day and an only-earlier
      day are kept, a moved commitment lands no earlier than the shortest duration, the visited
      prefix is tagged Eager and the rest is untouched; a queue left partly unvisited means the
      deficit was paid. */
  lemma RescheduleShape(day: int, table: Table, cs: seq<Commitment>, need: int, draws: nat -> Resched, offset: nat)
    requires table != [] && Ascending(table)
    ensures var r := Reschedule(day, table, cs, need, draws, offset);
      && (forall j :: 0 <= j < |cs| ==>
        && r.commitments[j].paperId == cs[j].paperId
        && r.commitments[j].accepted == cs[j].accepted
        && r.commitments[j].scheduled <= cs[j].scheduled
        && (r.commitments[j].scheduled < cs[j].scheduled ==> r.commitments[j].scheduled >= day + table[0].key))
      && (forall j :: 0 <= j < r.visited ==> r.commitments[j].doneBy == Eager)
      && (forall j :: r.visited <= j < |cs| ==> r.commitments[j] == cs[j])
      && (r.visited < |cs| ==> r.need <= 0)
  {
    forall j | 0 <= j < |cs| {
      RescheduleAt(day, table, cs, need, draws, offset, j);
    }
    RescheduleStops(day, table, cs, need, draws, offset);
  }

  /** The commitment at position `j` after rescheduling. */
  lemma {:induction false} RescheduleAt(day: int, table: Table, cs: seq<Commitment>, need: int, draws: nat -> Resched, offset: nat, j: nat)
    requires table != [] && Ascending(table) && j < |cs|
    ensures var r := Reschedule(day, table, cs, need, draws, offset);
      && r.commitments[j].paperId == cs[j].paperId
      && r.commitments[j].accepted == cs[j].accepted
      && r.commitments[j].scheduled <= cs[j].scheduled
      && (r.commitments[j].scheduled < cs[j].scheduled ==> r.commitments[j].scheduled >= day + table[0].key)
      && (j < r.visited ==> r.commitments[j].doneBy == Eager)
      && (r.visited <= j ==> r.commitments[j] == cs[j])
    decreases j
  {
    if need > 0 {
      var moved := Moves(day, table, cs[0], draws(offset));
      var rest := Reschedule(day, table, cs[1..], if moved then need - 1 else need, draws, offset + 1);
      var r := Reschedule(day, table, cs, need, draws, offset);
      assert r.commitments == [Visit(day, table, cs[0], draws(offset))] + rest.commitments;
      assert r.visited == rest.visited + 1;
      if j == 0 {
        assert r.commitments[0] == Visit(day, table, cs[0], draws(offset));
      } else {
        RescheduleAt(day, table, cs[1..], if moved then need - 1 else need, draws, offset + 1, j - 1);
        assert r.commitments[j] == rest.commitments[j - 1] && cs[j] == cs[1..][j - 1];
      }
    }
  }

  /** The loop stops early only once the deficit is paid. */
  lemma {:induction false} RescheduleStops(day: int, table: Table, cs: seq<Commitment>, need: int, draws: nat -> Resched, offset: nat)
    requires table != [] && Ascending(table)
    ensures var r := Reschedule(day, table, cs, need, draws, offset);
      r.visited < |cs| ==> r.need <= 0
    decreases |cs|
  {
    if cs != [] && need > 0 {
      var moved := Moves(day, table, cs[0], draws(offset));
      RescheduleStops(day, table, cs[1..], if moved then need - 1 else need, draws, offset + 1);
    }
  }

  /** The deficit left after rescheduling is the starting one less the commitments moved
      earlier, and never negative. */
  lemma {:induction false} RescheduleNeed(day: int, table: Table, cs: seq<Commitment>, need: int, draws: nat -> Resched, offset: nat)
    requires table != [] && Ascending(table)
    requires need > 0
    ensures var r := Reschedule(day, table, cs, need, draws, offset);
      0 <= r.need && r.need == need - CountEarlier(cs, r.commitments)
    decreases |cs|
  {
    if cs != [] {
      var moved := Moves(day, table, cs[0], draws(offset));
      var n1 := if moved then need - 1 else need;
      var rest := Reschedule(day, table, cs[1..], n1, draws, offset + 1);
      var r := Reschedule(day, table, cs, need, draws, offset);
      var c' := Visit(day, table, cs[0], draws(offset));
      assert r.commitments == [c'] + rest.commitments;
      assert r.commitments[0] == c' && r.commitments[1..] == rest.commitments;
      assert CountEarlier(cs, r.commitments) == (if moved then 1 else 0) + CountEarlier(cs[1..], rest.commitments);
      if n1 > 0 {
        RescheduleNeed(day, table, cs[1..], n1, draws, offset + 1);
      } else {
        assert rest == Rescheduled(cs[1..], n1, 0);
        CountEarlierSame(cs[1..]);
      }
    }
  }

  lemma {:induction false} CountEarlierSame(cs: seq<Commitment>)
    ensures CountEarlier(cs, cs) == 0
  {
    if cs != [] { CountEarlierSame(cs[1..]); }
  }

  /** The reevaluation phase. `prev_status` records the old status. A researcher without a
      deficit becomes Lazy and keeps its queue. A researcher with a deficit reschedules: it
      becomes Eager when the deficit is not covered, and otherwise keeps its status. */
  function Reevaluate(cfg: Config, day: int, a: Researcher, draws: nat -> Resched): (r: Researcher)
    ensures r == a.(prevStatus := r.prevStatus, status := r.status, toReview := r.toReview)
    ensures r.prevStatus == a.status
    ensures |r.toReview| == |a.toReview|
    ensures forall j :: 0 <= j < |a.toReview| ==>
      && r.toReview[j].paperId == a.toReview[j].paperId
      && r.toReview[j].accepted == a.toReview[j].accepted
      && r.toReview[j].scheduled <= a.toReview[j].scheduled
      && (r.toReview[j].scheduled < a.toReview[j].scheduled ==> r.toReview[j].scheduled >= day + 7)
      && (r.toReview[j] != a.toReview[j] ==> r.toReview[j].doneBy == Eager)
    ensures !NeedsReviewsToPublish(cfg, day, a) ==> r.status == Lazy && r.toReview == a.toReview
    ensures NeedsReviewsToPublish(cfg, day, a) ==>
      var left := Deficit(cfg, day, a) - CountEarlier(a.toReview, r.toReview);
      && 0 <= left
      && (left > 0 ==> r.status == Eager && forall j :: 0 <= j < |r.toReview| ==> r.toReview[j].doneBy == Eager)
      && (left == 0 ==> r.status == a.status)
  {
    if NeedsReviewsToPublish(cfg, day, a) then
      var rs := Reschedule(day, ReviewTime(a.status), a.toReview, Deficit(cfg, day, a), draws, 0);
      RescheduleShape(day, ReviewTime(a.status), a.toReview, Deficit(cfg, day, a), draws, 0);
      RescheduleNeed(day, ReviewTime(a.status), a.toReview, Deficit(cfg, day, a), draws, 0);
      a.(prevStatus := a.status, toReview := rs.commitments, status := if rs.need > 0 then Eager else a.status)
    else
      a.(prevStatus := a.status, status := Lazy)
  }

  /** While gating is inactive, a researcher with a non-negative balance ends the phase Lazy. */
  lemma UngatedEndsLazy(cfg: Config, day: int, a: Researcher, draws: nat -> Resched)
    requires !TokensNeeded(cfg, day) && a.tokens >= 0
    ensures Reevaluate(cfg, day, a, draws).status == Lazy
  {
    UngatedNeedsNothing(cfg, day, a);
  }

  // ---------------------------------------------------------------------------------------
  // History trimming (model.py:358-359, 378-380)

  /** The papers generated on or after `since`, in their original order. */
  function RecentPapers(ps: seq<Paper>, since: int): (r: seq<Paper>)
    ensures |r| <= |ps|
    ensures forall p :: p in r <==> p in ps && p.generation >= since
  {
    if ps == [] then []
    else if ps[0].generation >= since then [ps[0]] + RecentPapers(ps[1..], since)
    else RecentPapers(ps[1..], since)
  }

  /** The paper filter distributes over concatenation. */
  lemma {:induction false} RecentPapersAppend(ps: seq<Paper>, qs: seq<Paper>, since: int)
    ensures RecentPapers(ps + qs, since) == RecentPapers(ps, since) + RecentPapers(qs, since)
  {
    if ps != [] {
      assert (ps + qs)[1..] == ps[1..] + qs;
      RecentPapersAppend(ps[1..], qs, since);
    } else {
      assert ps + qs == qs;
    }
  }

  /** Filtering from a later day after filtering from an earlier one is filtering from the later
      day alone. */
  lemma {:induction false} RecentNested(cs: seq<Commitment>, early: int, late: int)
    requires early <= late
    ensures Recent(Recent(cs, early), late) == Recent(cs, late)
  {
    if cs != [] {
      RecentNested(cs[1..], early, late);
      if cs[0].accepted >= early {
        assert ([cs[0]] + Recent(cs[1..], early))[1..] == Recent(cs[1..], early);
      }
    }
  }

  lemma {:induction false} RecentIdempotent(cs: seq<Commitment>, since: int)
    ensures Recent(Recent(cs, since), since) == Recent(cs, since)
  {
    if cs != [] {
      RecentIdempotent(cs[1..], since);
      if cs[0].accepted >= since {
        assert ([cs[0]] + Recent(cs[1..], since))[1..] == Recent(cs[1..], since);
      }
    }
  }

  lemma {:induction false} RecentPapersIdempotent(ps: seq<Paper>, since: int)
    ensures RecentPapers(RecentPapers(ps, since), since) == RecentPapers(ps, since)
  {
    if ps != [] {
      RecentPapersIdempotent(ps[1..], since);
      if ps[0].generation >= since {
        assert ([ps[0]] + RecentPapers(ps[1..], since))[1..] == RecentPapers(ps[1..], since);
      }
    }
  }

  /** `clear_researcher_papers` with its default window: the completed reviews accepted within
      the trailing 365 days and the own papers generated within them are kept, nothing else
      is, and nothing else of the researcher changes. */
  function Trim(day: int, a: Researcher): (r: Researcher)
    ensures r == a.(reviewsDone := r.reviewsDone, submitted := r.submitted)
    ensures r.reviewsDone == Recent(a.reviewsDone, day - 365)
    ensures r.submitted == RecentPapers(a.submitted, day - 365)
    ensures forall c :: c in r.reviewsDone <==> c in a.reviewsDone && c.accepted >= day - 365
    ensures forall p :: p in r.submitted <==> p in a.submitted && p.generation >= day - 365
  {
    a.(reviewsDone := Recent(a.reviewsDone, day - 365), submitted := RecentPapers(a.submitted, day - 365))
  }

  /** Trimming twice on the same day trims nothing more. */
  lemma TrimIdempotent(day: int, a: Researcher)
    ensures Trim(day, Trim(day, a)) == Trim(day, a)
  {
    RecentIdempotent(a.reviewsDone, day - 365);
    RecentPapersIdempotent(a.submitted, day - 365);
  }

  /** Trimming is invisible to the yearly-cap count (`get_reviewers_reviews_in_timeframe`) of
      that day and of every later day: each completed review it drops was accepted before the
      window that count reads, and every review it keeps is kept with its multiplicity. */
  lemma TrimKeepsTimeframe(day: int, later: int, a: Researcher)
    requires day <= later
    ensures ReviewsInTimeframe(later, Trim(day, a)) == ReviewsInTimeframe(later, a)
  {
    RecentNested(a.reviewsDone, day - 365, later - 365);
  }

  // ---------------------------------------------------------------------------------------
  // The whole daily action (model.py:260-359)

  /** What one researcher's daily action produces: the researcher, the id counter, the
      registry and the duration ledger. */
  datatype Acted = Acted(agent: Researcher, nextPaperId: int, registry: seq<Paper>, revTime: Ledger)

  /** `agent_actions` (lines 260-359): the five phases in order, then the duration ledger is
      pruned to the days from `day - 366` on. The researcher keeps its id and cap, the counter
      moves by at most one, and the registry only grows by the submitted papers. */
  function Act(cfg: Config, day: int, next: int, a: Researcher, reg: seq<Paper>, led: Ledger, d: ActionDraws): (r: Acted)
    requires day in Days(led)
    ensures r.agent.id == a.id && r.agent.maxYearly == a.maxYearly
    ensures r.nextPaperId == next || r.nextPaperId == next + 1
    ensures |reg| <= |r.registry|
    ensures day in Days(r.revTime)
  {
    var g := Generate(cfg, day, next, a, d.write, d.reviews);
    var c := CompleteReviews(cfg, day, g.agent, reg, led);
    var u := SubmitPapers(cfg, day, c.agent, c.registry);
    var e := Reevaluate(cfg, day, u.agent, d.reschedule);
    Acted(Trim(day, e), g.nextPaperId, u.registry, Prune(c.revTime, day - 366))
  }
}

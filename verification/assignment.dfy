/** `JournalModel.assign_reviews`: the population-wide pass that invites reviewers for every
    registered paper still missing some, and drops the papers whose reviews are all in. */
module Assignment {

  import opened Basics
  import opened Tables
  import opened Agents
  import opened Rolling
  import opened Journal

  /** The draws of one invite round: the response trial, the candidate pick, the acceptance
      trial, the duration lookup and the jitter. A round reads only the ones it reaches. The
      candidate pick `randint(0, n - 1)` is an arbitrary natural taken modulo n, which is the
      identity on every value `randint` can return. */
  datatype Round = Round(delay: Unit, candidate: nat, accept: Unit, time: Unit, jitter: Jitter)

  /** The draw of each round, by (registry position of the paper, slot index, round index). */
  type AssignDraws = (nat, nat, nat) -> Round

  /** An invite round reaches a candidate only when its response draw is below 1/7. */
  const ResponseChance: real := 1.0 / 7.0

  /** What became of one invite round. */
  datatype Outcome = Delayed | Refused(reviewer: nat) | Accepted(reviewer: nat)

  /** The researchers are stored at the position of their id (the `researchers` dict is keyed
      by `unique_id`). */
  predicate WellIndexed(rs: seq<Researcher>) {
    forall i :: 0 <= i < |rs| ==> rs[i].id == i
  }

  /** The ids of the Eager researchers from position `from` on, in population order. */
  function EagerIds(rs: seq<Researcher>, from: nat := 0): (r: seq<nat>)
    requires from <= |rs|
    ensures WellIndexed(rs) ==> forall x :: x in r ==> from <= x < |rs| && rs[x].status == Eager
    decreases |rs| - from
  {
    if from == |rs| then []
    else (if rs[from].status == Eager then [rs[from].id] else []) + EagerIds(rs, from + 1)
  }

  /** Conversely, on a population indexed by id, every Eager researcher from `from` on is in
      the pool, and the pool is in ascending id order: it is the list comprehension of line 395. */
  lemma {:induction false} EagerIdsComplete(rs: seq<Researcher>, from: nat := 0)
    requires WellIndexed(rs) && from <= |rs|
    ensures forall x :: from <= x < |rs| && rs[x].status == Eager ==> x in EagerIds(rs, from)
    ensures forall i, j :: 0 <= i < j < |EagerIds(rs, from)| ==> EagerIds(rs, from)[i] < EagerIds(rs, from)[j]
    decreases |rs| - from
  {
    if from < |rs| {
      EagerIdsComplete(rs, from + 1);
      var tail := EagerIds(rs, from + 1);
      var r := EagerIds(rs, from);
      if rs[from].status == Eager {
        assert r == [from] + tail;
        forall i, j | 0 <= i < j < |r| ensures r[i] < r[j] {
          assert r[j] == tail[j - 1] && r[j] in tail;
          if i > 0 { assert r[i] == tail[i - 1]; }
        }
      } else {
        assert r == tail;
      }
    }
  }

  /** Changing a researcher without changing its id or its status keeps the Eager ids. */
  lemma {:induction false} EagerIdsKeep(rs: seq<Researcher>, j: nat, x: Researcher, from: nat := 0)
    requires from <= |rs| && j < |rs| && x.id == rs[j].id && x.status == rs[j].status
    ensures EagerIds(rs[j := x], from) == EagerIds(rs, from)
    decreases |rs| - from
  {
    if from < |rs| {
      EagerIdsKeep(rs, j, x, from + 1);
      assert rs[j := x][from].status == rs[from].status && rs[j := x][from].id == rs[from].id;
    }
  }

  /** Demoting an Eager researcher removes exactly its id from the Eager ids: the source's
      `eager_researchers.remove(reviewer)`. */
  lemma {:induction false} EagerIdsDemote(rs: seq<Researcher>, j: nat, x: Researcher, from: nat := 0)
    requires WellIndexed(rs) && from <= j < |rs|
    requires rs[j].status == Eager && x.id == j && x.status == Lazy
    ensures EagerIds(rs[j := x], from) == RemoveFirst(EagerIds(rs, from), j)
    decreases |rs| - from
  {
    if from == j {
      DemoteHere(rs, j, x);
    } else {
      EagerIdsDemote(rs, j, x, from + 1);
      DemoteBelow(rs, j, x, from);
    }
  }

  /** The demoted researcher heads the ids from its own position. */
  lemma DemoteHere(rs: seq<Researcher>, j: nat, x: Researcher)
    requires j < |rs| && rs[j].id == j && rs[j].status == Eager && x.status == Lazy
    ensures EagerIds(rs[j := x], j) == RemoveFirst(EagerIds(rs, j), j)
  {
    var tail := EagerIds(rs, j + 1);
    EagerIdsKeepAbove(rs, j, x, j + 1);
    assert EagerIds(rs[j := x], j) == EagerIds(rs[j := x], j + 1);
    assert EagerIds(rs, j) == [j] + tail;
    RemoveFirstCons(j, tail, j);
  }

  /** A position before the demoted one contributes the same head on both sides. */
  lemma DemoteBelow(rs: seq<Researcher>, j: nat, x: Researcher, from: nat)
    requires from < j < |rs| && rs[from].id == from
    requires EagerIds(rs[j := x], from + 1) == RemoveFirst(EagerIds(rs, from + 1), j)
    ensures EagerIds(rs[j := x], from) == RemoveFirst(EagerIds(rs, from), j)
  {
    var rs' := rs[j := x];
    var tail, tail' := EagerIds(rs, from + 1), EagerIds(rs', from + 1);
    assert rs'[from] == rs[from];
    if rs[from].status == Eager {
      assert EagerIds(rs', from) == [from] + tail' && EagerIds(rs, from) == [from] + tail;
      RemoveFirstCons(from, tail, j);
    } else {
      assert EagerIds(rs', from) == tail' && EagerIds(rs, from) == tail;
    }
  }

  /** `list.remove` on a list with a known head. */
  lemma RemoveFirstCons(h: nat, tail: seq<nat>, x: nat)
    ensures RemoveFirst([h] + tail, x) == if h == x then tail else [h] + RemoveFirst(tail, x)
  {
    assert ([h] + tail)[0] == h && ([h] + tail)[1..] == tail;
  }

  /** Positions before `from` do not influence the ids from `from` on. */
  lemma {:induction false} EagerIdsKeepAbove(rs: seq<Researcher>, j: nat, x: Researcher, from: nat)
    requires j < from <= |rs|
    ensures EagerIds(rs[j := x], from) == EagerIds(rs, from)
    decreases |rs| - from
  {
    if from < |rs| { EagerIdsKeepAbove(rs, j, x, from + 1); }
  }

  /** The state the pass threads: the population, the Eager priority pool and the invite ledger. */
  datatype Pass = Pass(researchers: seq<Researcher>, pool: seq<nat>, invites: Ledger)

  /** The pass's standing facts: candidates can be drawn from the first `num_authors` ids,
      researchers sit at their id, the pool holds exactly the Eager ids in population order,
      and today's invite entry exists. */
  predicate PassOk(cfg: Config, day: int, ps: Pass) {
    && 1 <= cfg.numAuthors <= |ps.researchers|
    && WellIndexed(ps.researchers)
    && ps.pool == EagerIds(ps.researchers)
    && day in Days(ps.invites)
  }

  /** The invited researcher: a pick from the pool while it is non-empty, otherwise a pick from
      ids `0 .. num_authors - 1`. */
  function Candidate(cfg: Config, pool: seq<nat>, draw: nat): nat
    requires cfg.numAuthors >= 1
  {
    if |pool| > 0 then pool[draw % |pool|] else draw % cfg.numAuthors
  }

  /** While the pool is non-empty the candidate is an Eager researcher, and it is always a
      member of the population. */
  lemma CandidateInPopulation(cfg: Config, day: int, ps: Pass, draw: nat)
    requires PassOk(cfg, day, ps)
    ensures Candidate(cfg, ps.pool, draw) < |ps.researchers|
    ensures |ps.pool| > 0 ==> ps.researchers[Candidate(cfg, ps.pool, draw)].status == Eager
    ensures forall x :: 0 <= x < |ps.researchers| && ps.researchers[x].status == Eager ==>
      ps.researchers[Candidate(cfg, ps.pool, draw)].status == Eager
  {
    EagerIdsComplete(ps.researchers);
    if |ps.pool| > 0 {
      assert ps.pool[draw % |ps.pool|] in ps.pool;
    }
  }

  /** The acceptance test of line 418: the cap check passes and the acceptance draw is within
      the reviewer's status probability. */
  predicate Agrees(cfg: Config, day: int, r: Researcher, d: Round) {
    CanReview(day, r) && d.accept <= AcceptProbability(cfg, r.status)
  }

  /** One invite round, judged against the pass as it stands. */
  function Judge(cfg: Config, day: int, ps: Pass, d: Round): (o: Outcome)
    requires PassOk(cfg, day, ps)
    ensures o.Delayed? <==> d.delay >= ResponseChance
    ensures !o.Delayed? ==> o.reviewer == Candidate(cfg, ps.pool, d.candidate) < |ps.researchers|
    ensures o.Accepted? ==> Agrees(cfg, day, ps.researchers[o.reviewer], d)
    ensures o.Refused? ==> !Agrees(cfg, day, ps.researchers[o.reviewer], d)
  {
    if d.delay >= ResponseChance then Delayed
    else
      var rid := Candidate(cfg, ps.pool, d.candidate);
      CandidateInPopulation(cfg, day, ps, d.candidate);
      if Agrees(cfg, day, ps.researchers[rid], d) then Accepted(rid) else Refused(rid)
  }

  /** The population after a pass step: everyone keeps identity, balance, queues and history;
      review queues only grow, by commitments accepted today and due at least a week later;
      a status can only go from Eager to Lazy. */
  predicate Evolves(rs: seq<Researcher>, rs': seq<Researcher>, day: int) {
    && |rs'| == |rs|
    && forall j :: 0 <= j < |rs| ==>
      && rs'[j] == rs[j].(toReview := rs'[j].toReview, status := rs'[j].status)
      && rs[j].toReview <= rs'[j].toReview
      && (forall c :: c in rs'[j].toReview[|rs[j].toReview|..] ==> c.accepted == day && c.scheduled >= day + 7)
      && (rs'[j].status != rs[j].status ==> rs[j].status == Eager && rs'[j].status == Lazy)
  }

  lemma EvolvesTrans(rs: seq<Researcher>, rs': seq<Researcher>, rs'': seq<Researcher>, day: int)
    requires Evolves(rs, rs', day) && Evolves(rs', rs'', day)
    ensures Evolves(rs, rs'', day)
  {
    forall j | 0 <= j < |rs|
      ensures forall c :: c in rs''[j].toReview[|rs[j].toReview|..] ==> c.accepted == day && c.scheduled >= day + 7
    {
      var a, b, e := rs[j].toReview, rs'[j].toReview, rs''[j].toReview;
      forall c | c in e[|a|..] ensures c.accepted == day && c.scheduled >= day + 7 {
        var i :| |a| <= i < |e| && e[i] == c;
        if i < |b| { assert c in b[|a|..]; } else { assert e[i] in e[|b|..]; }
      }
    }
  }

  /** The invite ledger after a pass step: same days, only today's entry can move, and it stays
      a dict with non-negative counts. */
  ghost predicate LedgerStep(l: Ledger, l': Ledger, day: int) {
    && Days(l') == Days(l)
    && (forall d :: d != day ==> Get(l', d) == Get(l, d))
    && (UniqueDays(l) ==> UniqueDays(l'))
    && (NonNegative(l) ==> NonNegative(l'))
  }

  lemma EvolvesRefl(rs: seq<Researcher>, day: int)
    ensures Evolves(rs, rs, day)
  {
    forall j | 0 <= j < |rs| ensures rs[j].toReview[|rs[j].toReview|..] == [] { }
  }

  /** Replacing one researcher by a version that respects the step's rules. */
  lemma EvolvesOne(rs: seq<Researcher>, j: nat, x: Researcher, day: int)
    requires j < |rs| && x == rs[j].(toReview := x.toReview, status := x.status)
    requires rs[j].toReview <= x.toReview
    requires forall c :: c in x.toReview[|rs[j].toReview|..] ==> c.accepted == day && c.scheduled >= day + 7
    requires x.status != rs[j].status ==> rs[j].status == Eager && x.status == Lazy
    ensures Evolves(rs, rs[j := x], day)
  {
    forall i | 0 <= i < |rs| && i != j ensures rs[i].toReview[|rs[i].toReview|..] == [] { }
  }

  /** The reviewer's side of an acceptance (lines 420-425 and 430-432). The reviewer commits to
      the paper, accepted today, in the name of its current status, and scheduled after today
      plus a duration drawn from that status' table plus jitter, hence at least a week ahead.
      An Eager reviewer that still needs reviews to publish is demoted to Lazy. Nothing else
      about the reviewer changes. */
  function Commit(cfg: Config, day: int, rev: Researcher, pid: int, d: Round): (r: Researcher)
    ensures r == rev.(toReview := r.toReview, status := r.status)
    ensures |r.toReview| == |rev.toReview| + 1 && r.toReview[..|rev.toReview|] == rev.toReview
    ensures var c := r.toReview[|rev.toReview|];
      && c.paperId == pid && c.accepted == day && c.doneBy == rev.status
      && c.scheduled - day - d.jitter in Keys(ReviewTime(rev.status))
      && c.scheduled >= day + 7
    ensures r.status == if rev.status == Eager && NeedsReviewsToPublish(cfg, day, rev) then Lazy else rev.status
  {
    ReviewDelayAtLeastWeek(rev.status, d.time);
    var c := Commitment(pid, day + CoinToss(ReviewTime(rev.status), d.time) + d.jitter, rev.status, day);
    var rev1 := rev.(toReview := rev.toReview + [c]);
    assert rev1.toReview[..|rev.toReview|] == rev.toReview;
    if rev1.status == Eager && NeedsReviewsToPublish(cfg, day, rev1) then rev1.(status := Lazy) else rev1
  }

  /** A pass state and a paper. */
  datatype Placed = Placed(pass: Pass, paper: Paper)

  /** An acceptance (lines 420-434): the reviewer commits as `Commit` states; the paper gains
      the pending slot `(reviewer, -1)`; when that slot is the paper's last one, today's invite
      entry records one more paper and the paper's invite total; a demoted reviewer leaves the
      pool. Nobody else changes. */
  function Accept(cfg: Config, day: int, ps: Pass, p: Paper, rid: nat, d: Round): (r: Placed)
    requires PassOk(cfg, day, ps) && rid < |ps.researchers|
    ensures PassOk(cfg, day, r.pass)
    ensures r.pass.researchers == ps.researchers[rid := Commit(cfg, day, ps.researchers[rid], p.id, d)]
    ensures r.pass.pool ==
      if ps.researchers[rid].status == Eager && NeedsReviewsToPublish(cfg, day, ps.researchers[rid])
      then RemoveFirst(ps.pool, rid) else ps.pool
    ensures r.paper == p.(reviewers := p.reviewers + [Slot(rid, PENDING)])
    ensures Get(r.pass.invites, day) ==
      if |p.reviewers| + 1 == p.numReviews then Some(Plus(Get(ps.invites, day).value, Acc(1, p.numInvites)))
      else Get(ps.invites, day)
    ensures LedgerStep(ps.invites, r.pass.invites, day)
    ensures Evolves(ps.researchers, r.pass.researchers, day)
  {
    var rs := ps.researchers;
    var rev := Commit(cfg, day, rs[rid], p.id, d);
    var p2 := p.(reviewers := p.reviewers + [Slot(rs[rid].id, PENDING)]);
    var inv := if p2.numReviews == |p2.reviewers| then Add(ps.invites, day, 1, p2.numInvites) else ps.invites;
    var demote := rs[rid].status == Eager && NeedsReviewsToPublish(cfg, day, rs[rid]);
    var pool := if demote then RemoveFirst(ps.pool, rid) else ps.pool;
    assert EagerIds(rs[rid := rev]) == pool by {
      if demote { EagerIdsDemote(rs, rid, rev); } else { EagerIdsKeep(rs, rid, rev); }
    }
    assert Evolves(rs, rs[rid := rev], day) by {
      var c := rev.toReview[|rs[rid].toReview|];
      assert rev.toReview == rs[rid].toReview + [c];
      assert rev.toReview[|rs[rid].toReview|..] == [c];
      EvolvesOne(rs, rid, rev, day);
    }
    Placed(Pass(rs[rid := rev], pool, inv), p2)
  }

  /** The number of rounds that reached a candidate. */
  function Responses(t: seq<Outcome>): nat {
    if t == [] then 0 else (if t[0].Delayed? then 0 else 1) + Responses(t[1..])
  }

  /** The last round run was an acceptance. */
  predicate EndsAccepted(t: seq<Outcome>) {
    t != [] && t[|t| - 1].Accepted?
  }

  /** The outcomes of the invite rounds of one missing slot, from round `n` on (the `while` of
      lines 403-436). A refusal changes nothing the next round reads, so every round is judged
      against the pass as it stood when the slot began. Every round but the last is a refusal;
      the slot ends before its `num_invites_per_review` rounds are used up only on a delay or an
      acceptance. */
  function Rounds(cfg: Config, day: int, ps: Pass, draws: AssignDraws, k: nat, slot: nat, n: nat): (t: seq<Outcome>)
    requires PassOk(cfg, day, ps)
    ensures |t| <= if n < cfg.invitesPerReview then cfg.invitesPerReview - n else 0
    ensures forall j :: 0 <= j < |t| - 1 ==> t[j].Refused?
    ensures forall j :: 0 <= j < |t| && !t[j].Delayed? ==> t[j].reviewer < |ps.researchers|
    ensures n + |t| < cfg.invitesPerReview ==> t != [] && !t[|t| - 1].Refused?
    decreases cfg.invitesPerReview - n
  {
    if n >= cfg.invitesPerReview then []
    else
      var o := Judge(cfg, day, ps, draws(k, slot, n));
      if o.Refused? then
        var rest := Rounds(cfg, day, ps, draws, k, slot, n + 1);
        assert forall j :: 1 <= j < |[o] + rest| ==> ([o] + rest)[j] == rest[j - 1];
        [o] + rest
      else [o]
  }

  /** Entry `j` of the trace from round `n` is the judgement of draw `n + j`, made against the
      pass as it stood when the slot began. */
  lemma {:induction false} RoundAt(cfg: Config, day: int, ps: Pass, draws: AssignDraws, k: nat, slot: nat, n: nat, j: nat)
    requires PassOk(cfg, day, ps) && j < |Rounds(cfg, day, ps, draws, k, slot, n)|
    ensures Rounds(cfg, day, ps, draws, k, slot, n)[j] == Judge(cfg, day, ps, draws(k, slot, n + j))
    decreases j
  {
    var o := Judge(cfg, day, ps, draws(k, slot, n));
    if j > 0 {
      assert n < cfg.invitesPerReview;
      var rest := Rounds(cfg, day, ps, draws, k, slot, n + 1);
      assert Rounds(cfg, day, ps, draws, k, slot, n) == if o.Refused? then [o] + rest else [o];
      assert o.Refused?;
      RoundAt(cfg, day, ps, draws, k, slot, n + 1, j - 1);
      assert n + 1 + (j - 1) == n + j;
    }
  }

  /** Every round of a trace that was not delayed counted one invite: all of them when the last
      round reached its candidate, all but the last otherwise. */
  lemma {:induction false} ResponsesOfTrace(t: seq<Outcome>)
    requires t != [] && forall j :: 0 <= j < |t| - 1 ==> t[j].Refused?
    ensures Responses(t) == if t[|t| - 1].Delayed? then |t| - 1 else |t|
  {
    if |t| > 1 {
      assert t[0].Refused?;
      ResponsesOfTrace(t[1..]);
    }
  }

  /** The slot a trace adds: the accepting reviewer's pending slot, or none. */
  function NewSlots(t: seq<Outcome>): seq<Slot> {
    if EndsAccepted(t) then [Slot(t[|t| - 1].reviewer, PENDING)] else []
  }

  /** One missing slot (one pass of the `for _ in range(needed)` loop): the paper's invite count
      grows by the rounds that reached a candidate; when the last round is an acceptance, the
      acceptance takes effect with that invite count, and otherwise nothing else changes. */
  function Invite(cfg: Config, day: int, ps: Pass, p: Paper, draws: AssignDraws, k: nat, slot: nat): (r: Placed)
    requires PassOk(cfg, day, ps)
    ensures PassOk(cfg, day, r.pass)
    ensures var t := Rounds(cfg, day, ps, draws, k, slot, 0);
      && r.paper.numInvites == p.numInvites + Responses(t)
      && r.paper.reviewers == p.reviewers + NewSlots(t)
      && Get(r.pass.invites, day) ==
           if EndsAccepted(t) && |p.reviewers| + 1 == p.numReviews
           then Some(Plus(Get(ps.invites, day).value, Acc(1, r.paper.numInvites)))
           else Get(ps.invites, day)
    ensures r.paper == p.(reviewers := r.paper.reviewers, numInvites := r.paper.numInvites)
    ensures LedgerStep(ps.invites, r.pass.invites, day)
    ensures Evolves(ps.researchers, r.pass.researchers, day)
  {
    var t := Rounds(cfg, day, ps, draws, k, slot, 0);
    var p1 := p.(numInvites := p.numInvites + Responses(t));
    if EndsAccepted(t) then
      Accept(cfg, day, ps, p1, t[|t| - 1].reviewer, draws(k, slot, |t| - 1))
    else
      assert LedgerStep(ps.invites, ps.invites, day);
      EvolvesRefl(ps.researchers, day);
      assert p.reviewers + [] == p.reviewers;
      Placed(ps, p1)
  }

  /** One missing slot in the terms of the slot loop: at most one pending slot is added after
      the existing ones, and today's invite entry records the paper exactly when that slot
      is its last. */
  lemma InviteStep(cfg: Config, day: int, ps: Pass, p: Paper, draws: AssignDraws, k: nat, slot: nat)
    requires PassOk(cfg, day, ps)
    ensures var one := Invite(cfg, day, ps, p, draws, k, slot);
      && |p.reviewers| <= |one.paper.reviewers| <= |p.reviewers| + 1
      && one.paper.reviewers[..|p.reviewers|] == p.reviewers
      && (forall j :: |p.reviewers| <= j < |one.paper.reviewers| ==> one.paper.reviewers[j].done == PENDING)
      && Get(one.pass.invites, day) ==
           if |one.paper.reviewers| == p.numReviews && |p.reviewers| < p.numReviews
           then Some(Plus(Get(ps.invites, day).value, Acc(1, one.paper.numInvites)))
           else Get(ps.invites, day)
  {
    var one := Invite(cfg, day, ps, p, draws, k, slot);
    var t := Rounds(cfg, day, ps, draws, k, slot, 0);
    if EndsAccepted(t) {
      var a := [Slot(t[|t| - 1].reviewer, PENDING)];
      assert one.paper.reviewers == p.reviewers + a;
      assert |one.paper.reviewers| == |p.reviewers| + 1;
      assert (p.reviewers + a)[..|p.reviewers|] == p.reviewers;
      assert one.paper.reviewers[|p.reviewers|].done == PENDING;
    } else {
      assert NewSlots(t) == [];
      assert one.paper.reviewers == p.reviewers;
      assert Get(one.pass.invites, day) == Get(ps.invites, day);
    }
  }

  /** Candidates are drawn without regard to the paper: with the Eager pool empty, a first round
      that reaches the paper's own author and is agreed to gives the author a pending slot,
      whatever slots the paper already holds, so neither self-review nor a second slot of the
      same reviewer is excluded. */
  lemma {:induction false} SelfReviewNotExcluded(cfg: Config, day: int, ps: Pass, p: Paper, draws: AssignDraws, k: nat, slot: nat)
    requires PassOk(cfg, day, ps) && ps.pool == [] && cfg.invitesPerReview >= 1
    requires p.author < cfg.numAuthors
    requires var d := draws(k, slot, 0);
      d.delay < ResponseChance && d.candidate == p.author && Agrees(cfg, day, ps.researchers[p.author], d)
    ensures Invite(cfg, day, ps, p, draws, k, slot).paper.reviewers == p.reviewers + [Slot(p.author, PENDING)]
  {
    var d := draws(k, slot, 0);
    assert Candidate(cfg, ps.pool, d.candidate) == p.author;
    assert Judge(cfg, day, ps, d) == Accepted(p.author);
    assert Rounds(cfg, day, ps, draws, k, slot, 0) == [Accepted(p.author)];
  }

  /** Two rounds of appending pending slots append pending slots. */
  lemma PendingTrans(a: seq<Slot>, b: seq<Slot>, c: seq<Slot>)
    requires |a| <= |b| <= |c| && b[..|a|] == a && c[..|b|] == b
    requires forall j :: |a| <= j < |b| ==> b[j].done == PENDING
    requires forall j :: |b| <= j < |c| ==> c[j].done == PENDING
    ensures c[..|a|] == a
    ensures forall j :: |a| <= j < |c| ==> c[j].done == PENDING
  {
    assert c[..|a|] == c[..|b|][..|a|];
    forall j | |a| <= j < |b| ensures c[j] == b[j] {
      assert c[..|b|][j] == c[j];
    }
  }

  lemma LedgerStepTrans(l: Ledger, l': Ledger, l'': Ledger, day: int)
    requires LedgerStep(l, l', day) && LedgerStep(l', l'', day)
    ensures LedgerStep(l, l'', day)
  {
  }

  /** All missing slots of one paper, from slot `slot` to `needed - 1` (the loop of lines
      401-436). Each slot adds at most one pending reviewer. The invite ledger records the paper
      once, when its last slot is filled, and with the paper's final invite count: a slot can
      only be the last one to fill when every slot before it was filled, so no later round
      adds an invite. */
  function Slots(cfg: Config, day: int, ps: Pass, p: Paper, draws: AssignDraws, k: nat, slot: nat, needed: nat): (r: Placed)
    requires PassOk(cfg, day, ps)
    requires slot <= needed && |p.reviewers| + (needed - slot) <= p.numReviews
    ensures PassOk(cfg, day, r.pass)
    ensures r.paper == p.(reviewers := r.paper.reviewers, numInvites := r.paper.numInvites)
    ensures r.paper.numInvites >= p.numInvites
    ensures |p.reviewers| <= |r.paper.reviewers| <= |p.reviewers| + (needed - slot)
    ensures r.paper.reviewers[..|p.reviewers|] == p.reviewers
    ensures forall j :: |p.reviewers| <= j < |r.paper.reviewers| ==> r.paper.reviewers[j].done == PENDING
    ensures Get(r.pass.invites, day) ==
      if |r.paper.reviewers| == p.numReviews && |p.reviewers| < p.numReviews
      then Some(Plus(Get(ps.invites, day).value, Acc(1, r.paper.numInvites)))
      else Get(ps.invites, day)
    ensures LedgerStep(ps.invites, r.pass.invites, day)
    ensures Evolves(ps.researchers, r.pass.researchers, day)
    decreases needed - slot
  {
    if slot == needed then
      assert LedgerStep(ps.invites, ps.invites, day);
      EvolvesRefl(ps.researchers, day);
      Placed(ps, p)
    else
      var one := Invite(cfg, day, ps, p, draws, k, slot);
      InviteStep(cfg, day, ps, p, draws, k, slot);
      var rest := Slots(cfg, day, one.pass, one.paper, draws, k, slot + 1, needed);
      LedgerStepTrans(ps.invites, one.pass.invites, rest.pass.invites, day);
      EvolvesTrans(ps.researchers, one.pass.researchers, rest.pass.researchers, day);
      PendingTrans(p.reviewers, one.paper.reviewers, rest.paper.reviewers);
      rest
  }

  /** The four-day guard of line 398: the paper was submitted no later than four days after
      today. */
  predicate Activated(p: Paper, day: int) {
    p.submission.Some? && p.submission.value <= day + 4
  }

  /** Every registered paper was submitted on or before today, so the guard never holds a
      paper back. */
  lemma GuardAlwaysOpen(p: Paper, day: int)
    requires p.submission.Some? && p.submission.value <= day
    ensures Activated(p, day)
  {
  }

  /** A paper stays in the registry after the pass when it is sent to invitation, or when one
      of its reviews is still outstanding. */
  predicate Kept(p: Paper, day: int) {
    (MissingReviewers(p) && Activated(p, day)) || !AllReviewed(p)
  }

  /** A submitted paper with no more reviewers than it needs leaves the registry exactly when
      all its reviewers are recruited and all their reviews are in. */
  lemma LeavesWhenFullyReviewed(p: Paper, day: int)
    requires p.submission.Some? && p.submission.value <= day && |p.reviewers| <= p.numReviews
    ensures !Kept(p, day) <==> |p.reviewers| == p.numReviews && AllReviewed(p)
  {
  }

  /** The registry papers from position `from` on that stay, in order. */
  function Survivors(reg: seq<Paper>, day: int, from: nat): (r: seq<Paper>)
    requires from <= |reg|
    ensures forall q :: q in r ==> q in reg[from..] && Kept(q, day)
    ensures forall q :: q in reg[from..] && Kept(q, day) ==> q in r
    decreases |reg| - from
  {
    if from == |reg| then []
    else
      var rest := Survivors(reg, day, from + 1);
      assert reg[from..] == [reg[from]] + reg[from + 1..];
      if Kept(reg[from], day) then [reg[from]] + rest else rest
  }

  /** What the pass does to one paper that stays: it gains only pending reviewer slots and
      invites, never beyond the number of reviews it needs; a paper that was not sent to
      invitation is untouched. */
  predicate Carries(p: Paper, q: Paper, day: int) {
    && q == p.(reviewers := q.reviewers, numInvites := q.numInvites)
    && q.numInvites >= p.numInvites
    && |p.reviewers| <= |q.reviewers|
    && q.reviewers[..|p.reviewers|] == p.reviewers
    && (forall j :: |p.reviewers| <= j < |q.reviewers| ==> q.reviewers[j].done == PENDING)
    && (|p.reviewers| <= p.numReviews ==> |q.reviewers| <= p.numReviews)
    && (!(MissingReviewers(p) && Activated(p, day)) ==> q == p)
  }

  /** The population, the pool, the invite ledger and the registry after the pass. */
  datatype Assigned = Assigned(pass: Pass, registry: seq<Paper>)

  /** The pass over the registry from position `from` on (the `for paper in
      self.submitted_papers[:]` loop of lines 397-449). The surviving papers keep their order
      and each is the image under `Carries` of the paper it was. */
  function AssignFrom(cfg: Config, day: int, ps: Pass, reg: seq<Paper>, draws: AssignDraws, from: nat): (r: Assigned)
    requires PassOk(cfg, day, ps) && from <= |reg|
    ensures PassOk(cfg, day, r.pass)
    ensures |r.registry| == |Survivors(reg, day, from)|
    ensures forall j :: 0 <= j < |r.registry| ==> Carries(Survivors(reg, day, from)[j], r.registry[j], day)
    ensures LedgerStep(ps.invites, r.pass.invites, day)
    ensures Evolves(ps.researchers, r.pass.researchers, day)
    decreases |reg| - from
  {
    if from == |reg| then
      assert LedgerStep(ps.invites, ps.invites, day);
      EvolvesRefl(ps.researchers, day);
      Assigned(ps, [])
    else
      var p := reg[from];
      var surv := Survivors(reg, day, from + 1);
      if MissingReviewers(p) && Activated(p, day) then
        var s := Slots(cfg, day, ps, p, draws, from, 0, p.numReviews - |p.reviewers|);
        var rest := AssignFrom(cfg, day, s.pass, reg, draws, from + 1);
        LedgerStepTrans(ps.invites, s.pass.invites, rest.pass.invites, day);
        EvolvesTrans(ps.researchers, s.pass.researchers, rest.pass.researchers, day);
        assert Carries(p, s.paper, day);
        assert Survivors(reg, day, from) == [p] + surv;
        CarriesCons(p, s.paper, surv, rest.registry, day);
        Assigned(rest.pass, [s.paper] + rest.registry)
      else if AllReviewed(p) then
        assert Survivors(reg, day, from) == surv;
        AssignFrom(cfg, day, ps, reg, draws, from + 1)
      else
        var rest := AssignFrom(cfg, day, ps, reg, draws, from + 1);
        assert Carries(p, p, day);
        assert Survivors(reg, day, from) == [p] + surv;
        CarriesCons(p, p, surv, rest.registry, day);
        Assigned(rest.pass, [p] + rest.registry)
  }

  lemma CarriesCons(p: Paper, q: Paper, ps: seq<Paper>, qs: seq<Paper>, day: int)
    requires Carries(p, q, day) && |qs| == |ps|
    requires forall j :: 0 <= j < |qs| ==> Carries(ps[j], qs[j], day)
    ensures |[q] + qs| == |[p] + ps|
    ensures forall j :: 0 <= j < |[q] + qs| ==> Carries(([p] + ps)[j], ([q] + qs)[j], day)
  {
    forall j | 0 <= j < |[q] + qs| ensures Carries(([p] + ps)[j], ([q] + qs)[j], day) {
      if j > 0 { assert ([p] + ps)[j] == ps[j - 1] && ([q] + qs)[j] == qs[j - 1]; }
    }
  }

  /** `JournalModel.assign_reviews` (lines 393-449): the pool starts as the Eager researchers in
      population order, then the whole registry is passed over. */
  function AssignReviews(cfg: Config, day: int, rs: seq<Researcher>, reg: seq<Paper>, invites: Ledger, draws: AssignDraws): (r: Assigned)
    requires PassOk(cfg, day, Pass(rs, EagerIds(rs), invites))
    ensures PassOk(cfg, day, r.pass)
    ensures |r.registry| == |Survivors(reg, day, 0)|
    ensures forall j :: 0 <= j < |r.registry| ==> Carries(Survivors(reg, day, 0)[j], r.registry[j], day)
    ensures LedgerStep(invites, r.pass.invites, day)
    ensures Evolves(rs, r.pass.researchers, day)
  {
    AssignFrom(cfg, day, Pass(rs, EagerIds(rs), invites), reg, draws, 0)
  }
}

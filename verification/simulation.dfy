/** One day of `JournalModel.step` (model.py lines 174-251) and the invariant every day keeps. */
module Simulation {

  import opened Basics
  import opened Tables
  import opened Agents
  import opened Rolling
  import opened Journal
  import opened Actions
  import opened Assignment
  import opened Metrics
  import opened Identity
  import Population

  // ---------------------------------------------------------------------------------------
  // The day

  /** The researchers' daily actions from id `i` on, in id order: `researcher.step()` for every
      researcher, each of which runs `agent_actions` on itself (agents.py lines 16-17). */
  function RunAgents(s: Sim, i: nat, draws: nat -> ActionDraws): (r: Sim)
    requires i <= |s.researchers| && s.day in Days(s.revTime)
    ensures r.cfg == s.cfg && r.day == s.day && r.invites == s.invites && r.snapshot == s.snapshot
    ensures |r.researchers| == |s.researchers|
    ensures forall j :: 0 <= j < |s.researchers| ==> r.researchers[j].id == s.researchers[j].id
    ensures s.nextPaperId <= r.nextPaperId
    ensures s.day in Days(r.revTime)
    decreases |s.researchers| - i
  {
    if i == |s.researchers| then s
    else
      var x := Act(s.cfg, s.day, s.nextPaperId, s.researchers[i], s.registry, s.revTime, draws(i));
      RunAgents(After(s, i, x), i + 1, draws)
  }

  /** The simulation once researcher `i` has acted. */
  function After(s: Sim, i: nat, x: Acted): (r: Sim)
    requires i < |s.researchers|
  {
    s.(nextPaperId := x.nextPaperId, researchers := s.researchers[i := x.agent], registry := x.registry, revTime := x.revTime)
  }

  /** The start of a day (lines 180 and 200-201): the counter advances and both accumulators
      open an empty entry for the new day. */
  function Open(s: Sim): (r: Sim)
    ensures r.cfg == s.cfg && r.nextPaperId == s.nextPaperId && r.researchers == s.researchers
    ensures r.registry == s.registry && r.snapshot == s.snapshot
    ensures r.day == s.day + 1
    ensures r.day in Days(r.revTime) && r.day in Days(r.invites)
    ensures Get(r.revTime, r.day) == Some(Acc(0, 0)) && Get(r.invites, r.day) == Some(Acc(0, 0))
    ensures forall d :: d != r.day ==> Get(r.revTime, d) == Get(s.revTime, d) && Get(r.invites, d) == Get(s.invites, d)
    ensures LedgerOk(s.revTime) ==> LedgerOk(r.revTime)
    ensures LedgerOk(s.invites) ==> LedgerOk(r.invites)
  {
    var day := s.day + 1;
    PutKeepsDict(s.revTime, day, Acc(0, 0));
    PutKeepsDict(s.invites, day, Acc(0, 0));
    s.(day := day, revTime := Put(s.revTime, day, Acc(0, 0)), invites := Put(s.invites, day, Acc(0, 0)))
  }

  /** The assignment pass of the day, applied to the simulation. */
  function Assign(s: Sim, assign: AssignDraws): (r: Sim)
    requires PassOk(s.cfg, s.day, Pass(s.researchers, EagerIds(s.researchers), s.invites))
    ensures r.cfg == s.cfg && r.day == s.day && r.nextPaperId == s.nextPaperId
    ensures r.revTime == s.revTime && r.snapshot == s.snapshot
    ensures |r.researchers| == |s.researchers|
  {
    var a := AssignReviews(s.cfg, s.day, s.researchers, s.registry, s.invites, assign);
    s.(researchers := a.pass.researchers, registry := a.registry, invites := a.pass.invites)
  }

  /** The work of one day: it opens, every researcher acts in id order, then reviewers are
      assigned. */
  function Day(s: Sim, draws: nat -> ActionDraws, assign: AssignDraws): (r: Sim)
    requires 1 <= s.cfg.numAuthors <= |s.researchers| && WellIndexed(s.researchers)
    ensures r.cfg == s.cfg && r.day == s.day + 1 && r.snapshot == s.snapshot
    ensures |r.researchers| == |s.researchers|
    ensures s.nextPaperId <= r.nextPaperId
  {
    var s1 := Open(s);
    var s2 := RunAgents(s1, 0, draws);
    assert WellIndexed(s2.researchers) by {
      forall i | 0 <= i < |s2.researchers| ensures s2.researchers[i].id == i {
        assert s2.researchers[i].id == s1.researchers[i].id;
      }
    }
    Assign(s2, assign)
  }

  /** `JournalModel.step`: the day's work, then the statistics of the state it leaves (lines
      235-244); a division by zero there stops the run. */
  function Step(s: Sim, draws: nat -> ActionDraws, assign: AssignDraws): (r: Result<Sim, Crash>)
    requires 1 <= s.cfg.numAuthors <= |s.researchers| && WellIndexed(s.researchers)
    ensures var t := Day(s, draws, assign);
      && (r.Failure? <==> Collect(t.day, t.revTime, t.invites, t.registry).Failure?)
      && (r.Success? ==>
            r.value == t.(snapshot := r.value.snapshot)
            && Collect(t.day, t.revTime, t.invites, t.registry) == Success(r.value.snapshot))
  {
    var t := Day(s, draws, assign);
    var snap := Collect(t.day, t.revTime, t.invites, t.registry);
    if snap.Failure? then Failure(snap.error) else Success(t.(snapshot := snap.value))
  }

  // ---------------------------------------------------------------------------------------
  // The invariant

  /** A queued paper: never submitted, no slots yet, 2 or 3 reviews needed, an id already
      handed out. */
  predicate Queued(p: Paper, next: int) {
    p.submission == None && p.reviewers == [] && (p.numReviews == 2 || p.numReviews == 3) && p.id < next
  }

  /** A registered paper: submitted on or before `day`, never more slots than reviews needed,
      2 or 3 reviews needed, an id already handed out. */
  predicate Registered(p: Paper, next: int, day: int) {
    && p.submission.Some? && p.submission.value <= day
    && |p.reviewers| <= p.numReviews && (p.numReviews == 2 || p.numReviews == 3)
    && p.id < next
  }

  /** A researcher's standing facts: a non-negative balance, queued papers as `Queued` says,
      and every commitment still ahead, scheduled after `after`. */
  predicate AgentOk(r: Researcher, next: int, after: int) {
    && r.tokens >= 0
    && (forall p :: p in r.toSubmit ==> Queued(p, next))
    && (forall c :: c in r.toReview ==> c.scheduled > after)
  }

  predicate RegistryOk(reg: seq<Paper>, next: int, day: int) {
    forall p :: p in reg ==> Registered(p, next, day)
  }

  predicate LedgerOk(l: Ledger) {
    UniqueDays(l) && NonNegative(l)
  }

  /** The state between two days. Candidates can be drawn and researchers sit at their id;
      every researcher and every registered paper is as above, every commitment is scheduled
      for a later day (so the completion test `scheduled == today` meets each one on its day);
      the accumulators are dicts with non-negative counts; and no paper id is held twice. */
  predicate Inv(s: Sim) {
    && 1 <= s.cfg.numAuthors <= |s.researchers|
    && WellIndexed(s.researchers)
    && (forall j :: 0 <= j < |s.researchers| ==> AgentOk(s.researchers[j], s.nextPaperId, s.day))
    && RegistryOk(s.registry, s.nextPaperId, s.day)
    && LedgerOk(s.revTime) && LedgerOk(s.invites)
    && Distinct(AllIds(s.registry, s.researchers))
  }

  /** The state while the researchers of a day act: the first `i` have acted today, the
      others still see commitments due today at the earliest. */
  predicate MidDay(s: Sim, i: nat) {
    && i <= |s.researchers|
    && (forall j :: 0 <= j < i ==> AgentOk(s.researchers[j], s.nextPaperId, s.day))
    && (forall j :: i <= j < |s.researchers| ==> AgentOk(s.researchers[j], s.nextPaperId, s.day - 1))
    && RegistryOk(s.registry, s.nextPaperId, s.day)
    && LedgerOk(s.revTime)
    && s.day in Days(s.revTime)
    && Distinct(AllIds(s.registry, s.researchers))
  }

  // ---------------------------------------------------------------------------------------
  // Each phase keeps its part

  lemma AgentOkGrow(r: Researcher, next: int, next': int, after: int)
    requires AgentOk(r, next, after) && next <= next'
    ensures AgentOk(r, next', after)
  {
  }

  lemma RegistryOkGrow(reg: seq<Paper>, next: int, next': int, day: int)
    requires RegistryOk(reg, next, day) && next <= next'
    ensures RegistryOk(reg, next', day)
  {
  }

  /** Writing a paper queues a paper with a fresh id and moves the counter past it. */
  lemma GenerateKeeps(cfg: Config, day: int, next: int, a: Researcher, write: Unit, reviews: Unit, after: int)
    requires AgentOk(a, next, after)
    ensures var g := Generate(cfg, day, next, a, write, reviews);
      next <= g.nextPaperId && AgentOk(g.agent, g.nextPaperId, after)
  {
    var g := Generate(cfg, day, next, a, write, reviews);
    if write < cfg.dailySubmissionProb {
      forall p | p in g.agent.toSubmit ensures Queued(p, g.nextPaperId) {
        var k :| 0 <= k < |g.agent.toSubmit| && g.agent.toSubmit[k] == p;
        if k < |a.toSubmit| {
          assert p == a.toSubmit[k];
        }
      }
    }
  }

  /** Completing today's reviews leaves only commitments scheduled after today, adds a
      non-negative credit, and marks slots without changing the registry's shape. */
  lemma CompleteKeeps(cfg: Config, day: int, a: Researcher, reg: seq<Paper>, led: Ledger, next: int)
    requires day in Days(led) && AgentOk(a, next, day - 1) && RegistryOk(reg, next, day) && LedgerOk(led)
    ensures var c := CompleteReviews(cfg, day, a, reg, led);
      AgentOk(c.agent, next, day) && RegistryOk(c.registry, next, day) && LedgerOk(c.revTime)
      && day in Days(c.revTime)
  {
    var c := CompleteReviews(cfg, day, a, reg, led);
    forall p | p in c.registry ensures Registered(p, next, day) {
      var k :| 0 <= k < |c.registry| && c.registry[k] == p;
      assert reg[k] in reg;
    }
  }

  /** A stamped queue is registrable today. */
  lemma {:induction false} StampKeeps(ps: seq<Paper>, day: int, next: int)
    requires forall p :: p in ps ==> Queued(p, next)
    ensures RegistryOk(Stamp(ps, day), next, day)
  {
    if ps != [] {
      assert ps[0] in ps;
      assert forall p :: p in ps[1..] ==> p in ps;
      StampKeeps(ps[1..], day, next);
    }
  }

  /** Submitting keeps the unsent papers queued and registers the sent ones; the balance
      stays non-negative. */
  lemma SubmitKeeps(cfg: Config, day: int, a: Researcher, reg: seq<Paper>, next: int)
    requires AgentOk(a, next, day) && RegistryOk(reg, next, day)
    ensures var u := SubmitPapers(cfg, day, a, reg);
      AgentOk(u.agent, next, day) && RegistryOk(u.registry, next, day)
  {
    var q := SubmitQueue(TokensNeeded(cfg, day), day, a.toSubmit, a.tokens);
    SubmitQueueMembers(TokensNeeded(cfg, day), day, a.toSubmit, a.tokens);
    SubmitQueuePartition(TokensNeeded(cfg, day), day, a.toSubmit, a.tokens);
    StampKeeps(a.toSubmit, day, next);
    forall p | p in q.sent ensures Registered(p, next, day) {
      assert multiset(q.sent)[p] > 0;
      assert p in multiset(Stamp(a.toSubmit, day));
    }
  }

  /** Rescheduling only moves a commitment to a day at least a week ahead. */
  lemma ReevaluateKeeps(cfg: Config, day: int, a: Researcher, draws: nat -> Resched, next: int)
    requires AgentOk(a, next, day)
    ensures AgentOk(Reevaluate(cfg, day, a, draws), next, day)
  {
    var e := Reevaluate(cfg, day, a, draws);
    forall c | c in e.toReview ensures c.scheduled > day {
      var k :| 0 <= k < |e.toReview| && e.toReview[k] == c;
      assert a.toReview[k] in a.toReview;
    }
  }

  /** One researcher's daily action keeps its own facts, the registry's and the duration
      ledger's, and only raises the id counter. */
  lemma ActKeeps(cfg: Config, day: int, next: int, a: Researcher, reg: seq<Paper>, led: Ledger, d: ActionDraws)
    requires day in Days(led) && AgentOk(a, next, day - 1) && RegistryOk(reg, next, day) && LedgerOk(led)
    ensures var r := Act(cfg, day, next, a, reg, led, d);
      && AgentOk(r.agent, r.nextPaperId, day)
      && RegistryOk(r.registry, r.nextPaperId, day)
      && LedgerOk(r.revTime)
  {
    var g := Generate(cfg, day, next, a, d.write, d.reviews);
    GenerateKeeps(cfg, day, next, a, d.write, d.reviews, day - 1);
    RegistryOkGrow(reg, next, g.nextPaperId, day);
    var c := CompleteReviews(cfg, day, g.agent, reg, led);
    CompleteKeeps(cfg, day, g.agent, reg, led, g.nextPaperId);
    var u := SubmitPapers(cfg, day, c.agent, c.registry);
    SubmitKeeps(cfg, day, c.agent, c.registry, g.nextPaperId);
    var e := Reevaluate(cfg, day, u.agent, d.reschedule);
    ReevaluateKeeps(cfg, day, u.agent, d.reschedule, g.nextPaperId);
    assert Act(cfg, day, next, a, reg, led, d) == Acted(Trim(day, e), g.nextPaperId, u.registry, Prune(c.revTime, day - 366));
  }

  /** Running the remaining researchers completes the day's half of the invariant. */
  lemma {:induction false} RunAgentsKeeps(s: Sim, i: nat, draws: nat -> ActionDraws)
    requires MidDay(s, i)
    ensures MidDay(RunAgents(s, i, draws), |s.researchers|)
    decreases |s.researchers| - i
  {
    if i < |s.researchers| {
      var s' := MidDayStep(s, i, draws(i));
      RunAgentsKeeps(s', i + 1, draws);
      MidDaySame(RunAgents(s', i + 1, draws), RunAgents(s, i, draws), |s.researchers|);
    } else {
      MidDaySame(s, RunAgents(s, i, draws), i);
    }
  }

  /** Researcher `i` acting advances the mid-day state by one; `s'` is the state it leaves,
      from which the remaining researchers run. */
  lemma MidDayStep(s: Sim, i: nat, d: ActionDraws) returns (s': Sim)
    requires MidDay(s, i) && i < |s.researchers|
    ensures s' == After(s, i, Act(s.cfg, s.day, s.nextPaperId, s.researchers[i], s.registry, s.revTime, d))
    ensures MidDay(s', i + 1)
  {
    var x := Act(s.cfg, s.day, s.nextPaperId, s.researchers[i], s.registry, s.revTime, d);
    ActKeeps(s.cfg, s.day, s.nextPaperId, s.researchers[i], s.registry, s.revTime, d);
    ActIds(s.cfg, s.day, s.nextPaperId, s.researchers[i], s.registry, s.revTime, d);
    MidDayAdvance(s, i, x);
    s' := After(s, i, x);
  }

  lemma MidDaySame(a: Sim, b: Sim, i: nat)
    requires MidDay(a, i) && a == b
    ensures MidDay(b, i)
  {
  }

  /** Replacing researcher `i` by its acted version advances the mid-day state by one. */
  lemma MidDayAdvance(s: Sim, i: nat, x: Acted)
    requires MidDay(s, i) && i < |s.researchers|
    requires s.nextPaperId <= x.nextPaperId
    requires AgentOk(x.agent, x.nextPaperId, s.day) && RegistryOk(x.registry, x.nextPaperId, s.day)
    requires LedgerOk(x.revTime) && s.day in Days(x.revTime)
    requires multiset(Ids(x.registry)) + multiset(Ids(x.agent.toSubmit)) ==
      multiset(Ids(s.registry)) + multiset(Ids(s.researchers[i].toSubmit))
        + (if x.nextPaperId == s.nextPaperId then multiset{} else multiset{s.nextPaperId})
    ensures MidDay(After(s, i, x), i + 1)
  {
    forall j, p | 0 <= j < |s.researchers| && p in s.researchers[j].toSubmit ensures p.id < s.nextPaperId {
      assert AgentOk(s.researchers[j], s.nextPaperId, if j < i then s.day else s.day - 1);
    }
    ReplaceKeepsDistinct(s.registry, s.researchers, i, x.registry, x.agent, s.nextPaperId, x.nextPaperId != s.nextPaperId);
    forall j | 0 <= j < |s.researchers| && j != i
      ensures AgentOk(s.researchers[j], x.nextPaperId, if j < i then s.day else s.day - 1)
    {
      AgentOkGrow(s.researchers[j], s.nextPaperId, x.nextPaperId, if j < i then s.day else s.day - 1);
    }
  }

  /** The assignment pass keeps every researcher's facts: its commitments only grow, by
      commitments due a week ahead or later. */
  lemma EvolvesKeeps(rs: seq<Researcher>, rs': seq<Researcher>, day: int, next: int)
    requires Evolves(rs, rs', day)
    requires forall j :: 0 <= j < |rs| ==> AgentOk(rs[j], next, day)
    ensures forall j :: 0 <= j < |rs'| ==> AgentOk(rs'[j], next, day)
  {
    forall j | 0 <= j < |rs'| ensures AgentOk(rs'[j], next, day) {
      var old_, new_ := rs[j].toReview, rs'[j].toReview;
      forall c | c in new_ ensures c.scheduled > day {
        var k :| 0 <= k < |new_| && new_[k] == c;
        if k < |old_| {
          assert new_[..|old_|] == old_;
          assert c == old_[k];
        } else {
          assert c in new_[|old_|..];
        }
      }
    }
  }

  /** The registry after the pass: survivors only, each grown by pending slots within its
      review count. */
  lemma AssignKeepsRegistry(reg: seq<Paper>, out: seq<Paper>, day: int, next: int)
    requires RegistryOk(reg, next, day)
    requires |out| == |Survivors(reg, day, 0)|
    requires forall j :: 0 <= j < |out| ==> Carries(Survivors(reg, day, 0)[j], out[j], day)
    ensures RegistryOk(out, next, day)
  {
    var surv := Survivors(reg, day, 0);
    forall q | q in out ensures Registered(q, next, day) {
      var j :| 0 <= j < |out| && out[j] == q;
      assert surv[j] in surv;
      assert reg[0..] == reg;
    }
  }

  /** A day's work keeps the invariant. */
  lemma DayKeepsInv(s: Sim, draws: nat -> ActionDraws, assign: AssignDraws)
    requires Inv(s)
    ensures Inv(Day(s, draws, assign))
  {
    var s1 := Open(s);
    OpenKeeps(s);
    var s2 := RunAgents(s1, 0, draws);
    RunAgentsKeeps(s1, 0, draws);
    AssignKeepsInv(s2, assign);
    InvSame(Assign(s2, assign), Day(s, draws, assign));
  }

  /** A new day opens in the state the researchers' actions start from. */
  lemma OpenKeeps(s: Sim)
    requires Inv(s)
    ensures MidDay(Open(s), 0)
    ensures LedgerOk(Open(s).invites) && Open(s).day in Days(Open(s).invites)
  {
  }

  /** The assignment pass turns the state after the researchers' actions into one between two
      days. */
  lemma AssignKeepsInv(s: Sim, assign: AssignDraws)
    requires 1 <= s.cfg.numAuthors <= |s.researchers| && WellIndexed(s.researchers)
    requires MidDay(s, |s.researchers|) && LedgerOk(s.invites) && s.day in Days(s.invites)
    ensures Inv(Assign(s, assign))
  {
    var a := AssignReviews(s.cfg, s.day, s.researchers, s.registry, s.invites, assign);
    EvolvesKeeps(s.researchers, a.pass.researchers, s.day, s.nextPaperId);
    AssignKeepsRegistry(s.registry, a.registry, s.day, s.nextPaperId);
    AssignIds(s.cfg, s.day, s.researchers, s.registry, s.invites, assign);
  }

  lemma InvSame(a: Sim, b: Sim)
    requires Inv(a) && a == b
    ensures Inv(b)
  {
  }

  /** A state between two days whose statistics mean what they say: the invariant holds, the
      missing-reviewers figure is the number of registered papers still missing reviewers, and
      each one-month average is its own window's ratio whenever that window counted something. */
  predicate Recorded(u: Sim) {
    && Inv(u)
    && u.snapshot.missingReviewers == |Missing(u.registry)|
    && (Window(u.revTime, u.day - MONTH).count > 0 ==> u.snapshot.revTime1m == Ratio(Window(u.revTime, u.day - MONTH)))
    && (Window(u.invites, u.day - MONTH).count > 0 ==> u.snapshot.invites1m == Ratio(Window(u.invites, u.day - MONTH)))
  }

  /** Every day that does not stop the run keeps the invariant and records statistics that
      mean what they say. */
  lemma StepKeepsInv(s: Sim, draws: nat -> ActionDraws, assign: AssignDraws)
    requires Inv(s)
    ensures var r := Step(s, draws, assign);
      r.Success? ==> Recorded(r.value)
  {
    var r := Step(s, draws, assign);
    if r.Success? {
      DayKeepsInv(s, draws, assign);
      SnapshotKeeps(Day(s, draws, assign), r);
    }
  }

  /** Recording a successful day's statistics keeps the invariant and gives them their
      meaning. */
  lemma SnapshotKeeps(t: Sim, r: Result<Sim, Crash>)
    requires Inv(t)
    requires r.Success? ==> r.value == t.(snapshot := r.value.snapshot)
    requires r.Success? ==> Collect(t.day, t.revTime, t.invites, t.registry) == Success(r.value.snapshot)
    ensures r.Success? ==> Recorded(r.value)
  {
    CollectMeaning(t.day, t.revTime, t.invites, t.registry, t.nextPaperId);
  }

  /** The statistics of a state whose ledgers and registry satisfy the invariant. */
  lemma CollectMeaning(day: int, revTime: Ledger, invites: Ledger, reg: seq<Paper>, next: int)
    requires LedgerOk(revTime) && LedgerOk(invites) && RegistryOk(reg, next, day)
    ensures var r := Collect(day, revTime, invites, reg);
      r.Success? ==>
        && r.value.missingReviewers == |Missing(reg)|
        && (Window(revTime, day - MONTH).count > 0 ==> r.value.revTime1m == Ratio(Window(revTime, day - MONTH)))
        && (Window(invites, day - MONTH).count > 0 ==> r.value.invites1m == Ratio(Window(invites, day - MONTH)))
  {
    MissingCountCounts(reg);
    MonthAverageAgainstRatio(revTime, day);
    MonthAverageAgainstRatio(invites, day);
  }

  /** The state before the first day satisfies the invariant when at least one author is
      configured and the initial balance is non-negative. */
  lemma InitialInv(cfg: Config)
    requires cfg.numAuthors >= 1 && cfg.initialTokens >= 0
    ensures Inv(Population.Initial(cfg))
  {
    StartInv(Population.Initial(cfg), Population.DISTRIBUTION);
  }

  /** Any population built from a distribution, with nothing registered or recorded yet. */
  lemma StartInv(s: Sim, d: seq<Population.Band>)
    requires 1 <= s.cfg.numAuthors && s.cfg.initialTokens >= 0
    requires s.researchers == Population.Researchers(s.cfg, d)
    requires s.registry == [] && s.revTime == [] && s.invites == []
    ensures Inv(s)
  {
    Population.NobodyStartsEager(s.cfg, d);
    QueueIdsEmpty(s.researchers);
  }
}

/** Paper identity. Ids come from the `next_paper_id` counter (model.py line 272), which hands
    each one out once, so no two papers the simulation holds share an id: neither two papers
    of the registry, nor a registered paper and a queued one, nor two queued papers. That is
    what lets the lookup and deletion by id (lines 283 and 446) stand for the paper itself. */
module Identity {

  import opened Basics
  import opened Tables
  import opened Agents
  import opened Rolling
  import opened Journal
  import opened Actions
  import opened Assignment

  /** The ids of a list of papers, in order. */
  function Ids(ps: seq<Paper>): (r: seq<int>)
    ensures |r| == |ps| && forall k :: 0 <= k < |ps| ==> r[k] == ps[k].id
  {
    seq(|ps|, k requires 0 <= k < |ps| => ps[k].id)
  }

  /** The ids waiting in the researchers' `papers_to_submit` queues, with multiplicity. */
  function QueueIds(rs: seq<Researcher>): multiset<int> {
    if rs == [] then multiset{} else multiset(Ids(rs[0].toSubmit)) + QueueIds(rs[1..])
  }

  /** Every paper id the simulation holds: the registry's and the queues'. */
  function AllIds(reg: seq<Paper>, rs: seq<Researcher>): multiset<int> {
    multiset(Ids(reg)) + QueueIds(rs)
  }

  /** No value occurs twice. */
  predicate Distinct(m: multiset<int>) {
    forall x :: x in m ==> m[x] <= 1
  }

  lemma IdsAppend(ps: seq<Paper>, qs: seq<Paper>)
    ensures Ids(ps + qs) == Ids(ps) + Ids(qs)
  {
  }

  /** Every id of a list is the id of one of its papers. */
  lemma IdsBelow(ps: seq<Paper>, next: int)
    requires forall p :: p in ps ==> p.id < next
    ensures forall x :: x in multiset(Ids(ps)) ==> x < next
  {
    forall x | x in multiset(Ids(ps)) ensures x < next {
      var k :| 0 <= k < |ps| && Ids(ps)[k] == x;
      assert ps[k] in ps;
    }
  }

  /** The queues' ids are below the counter when every queued paper's is. */
  lemma {:induction false} QueueIdsBelow(rs: seq<Researcher>, next: int)
    requires forall j, p :: 0 <= j < |rs| && p in rs[j].toSubmit ==> p.id < next
    ensures forall x :: x in QueueIds(rs) ==> x < next
  {
    if rs != [] {
      assert forall j, p :: 0 <= j < |rs[1..]| && p in rs[1..][j].toSubmit ==> p in rs[j + 1].toSubmit;
      QueueIdsBelow(rs[1..], next);
      IdsBelow(rs[0].toSubmit, next);
    }
  }

  /** Nobody queues anything, so the queues hold no id. */
  lemma {:induction false} QueueIdsEmpty(rs: seq<Researcher>)
    requires forall j :: 0 <= j < |rs| ==> rs[j].toSubmit == []
    ensures QueueIds(rs) == multiset{}
  {
    if rs != [] {
      assert rs[0].toSubmit == [];
      QueueIdsEmpty(rs[1..]);
    }
  }

  /** Researchers with the same queues hold the same queued ids. */
  lemma {:induction false} QueueIdsSame(rs: seq<Researcher>, rs': seq<Researcher>)
    requires |rs| == |rs'| && forall j :: 0 <= j < |rs| ==> rs'[j].toSubmit == rs[j].toSubmit
    ensures QueueIds(rs') == QueueIds(rs)
  {
    if rs != [] {
      assert rs'[0].toSubmit == rs[0].toSubmit;
      QueueIdsSame(rs[1..], rs'[1..]);
    }
  }

  /** Replacing one researcher trades its queue's ids for its replacement's. */
  lemma {:induction false} QueueIdsUpdate(rs: seq<Researcher>, i: nat, r: Researcher)
    requires i < |rs|
    ensures QueueIds(rs[i := r]) + multiset(Ids(rs[i].toSubmit)) == QueueIds(rs) + multiset(Ids(r.toSubmit))
  {
    if i == 0 {
      assert rs[i := r][1..] == rs[1..];
    } else {
      assert rs[i := r][0] == rs[0] && rs[i := r][1..] == rs[1..][i - 1 := r];
      QueueIdsUpdate(rs[1..], i - 1, r);
      assert rs[1..][i - 1] == rs[i];
      var m := multiset(Ids(rs[0].toSubmit));
      assert QueueIds(rs[i := r]) == m + QueueIds(rs[1..][i - 1 := r]);
      assert QueueIds(rs) == m + QueueIds(rs[1..]);
      var a, b := multiset(Ids(rs[i].toSubmit)), multiset(Ids(r.toSubmit));
      forall x ensures (QueueIds(rs[i := r]) + a)[x] == (QueueIds(rs) + b)[x] {
        assert (QueueIds(rs[1..][i - 1 := r]) + a)[x] == (QueueIds(rs[1..]) + b)[x];
      }
    }
  }

  /** The submission loop neither loses nor invents an id: the sent and the unsent papers
      together carry exactly the queue's ids. */
  lemma {:induction false} SubmitQueueIds(gated: bool, day: int, ps: seq<Paper>, tokens: int)
    ensures var q := SubmitQueue(gated, day, ps, tokens);
      multiset(Ids(q.sent)) + multiset(Ids(q.queued)) == multiset(Ids(ps))
    decreases |ps|
  {
    if ps != [] {
      var h, tail := ps[0], ps[1..];
      var t := if !gated || h.numReviews <= tokens then (if gated then tokens - h.numReviews else tokens) else tokens;
      SubmitQueueIds(gated, day, tail, t);
      var rest := SubmitQueue(gated, day, tail, t);
      var sent, queued := multiset(Ids(rest.sent)), multiset(Ids(rest.queued));
      assert ps == [h] + tail;
      SubmitCons(gated, day, h, tail, tokens);
      IdsCons(h, tail);
      if !gated || h.numReviews <= tokens {
        IdsCons(h.(submission := Some(day)), rest.sent);
        AddLeft(h.id, sent, queued, multiset(Ids(tail)));
      } else {
        IdsCons(h, rest.queued);
        AddRight(h.id, sent, queued, multiset(Ids(tail)));
      }
    }
  }

  lemma IdsCons(h: Paper, t: seq<Paper>)
    ensures multiset(Ids([h] + t)) == multiset{h.id} + multiset(Ids(t))
  {
    IdsAppend([h], t);
  }

  lemma AddLeft(x: int, a: multiset<int>, b: multiset<int>, c: multiset<int>)
    requires a + b == c
    ensures (multiset{x} + a) + b == multiset{x} + c
  {
  }

  lemma AddRight(x: int, a: multiset<int>, b: multiset<int>, c: multiset<int>)
    requires a + b == c
    ensures a + (multiset{x} + b) == multiset{x} + c
  {
  }

  /** Writing a paper queues the counter's value and nothing else. */
  lemma GenerateIds(cfg: Config, day: int, next: int, a: Researcher, write: Unit, reviews: Unit)
    ensures var g := Generate(cfg, day, next, a, write, reviews);
      multiset(Ids(g.agent.toSubmit)) == multiset(Ids(a.toSubmit)) + (if g.nextPaperId == next then multiset{} else multiset{next})
  {
    var g := Generate(cfg, day, next, a, write, reviews);
    if write < cfg.dailySubmissionProb {
      var p := g.agent.toSubmit[|a.toSubmit|];
      assert g.agent.toSubmit == a.toSubmit + [p];
      IdsAppend(a.toSubmit, [p]);
    }
  }

  /** Submitting moves ids from the queue to the registry, neither losing nor adding one. */
  lemma SubmitPapersIds(cfg: Config, day: int, a: Researcher, reg: seq<Paper>)
    ensures var u := SubmitPapers(cfg, day, a, reg);
      multiset(Ids(u.registry)) + multiset(Ids(u.agent.toSubmit)) == multiset(Ids(reg)) + multiset(Ids(a.toSubmit))
  {
    var q := SubmitQueue(TokensNeeded(cfg, day), day, a.toSubmit, a.tokens);
    SubmitQueueIds(TokensNeeded(cfg, day), day, a.toSubmit, a.tokens);
    IdsAppend(reg, q.sent);
  }

  /** `agent_actions` moves ids between the researcher's queue and the registry and adds only
      the id it writes a paper under, the counter's value, when the counter moves. */
  lemma ActIds(cfg: Config, day: int, next: int, a: Researcher, reg: seq<Paper>, led: Ledger, d: ActionDraws)
    requires day in Days(led)
    ensures var x := Act(cfg, day, next, a, reg, led, d);
      multiset(Ids(x.registry)) + multiset(Ids(x.agent.toSubmit)) ==
        multiset(Ids(reg)) + multiset(Ids(a.toSubmit)) + (if x.nextPaperId == next then multiset{} else multiset{next})
  {
    var g := Generate(cfg, day, next, a, d.write, d.reviews);
    GenerateIds(cfg, day, next, a, d.write, d.reviews);
    var c := CompleteReviews(cfg, day, g.agent, reg, led);
    assert Ids(c.registry) == Ids(reg);
    var u := SubmitPapers(cfg, day, c.agent, c.registry);
    SubmitPapersIds(cfg, day, c.agent, c.registry);
    var e := Reevaluate(cfg, day, u.agent, d.reschedule);
    assert Act(cfg, day, next, a, reg, led, d) == Acted(Trim(day, e), g.nextPaperId, u.registry, Prune(c.revTime, day - 366));
  }

  /** The papers that stay after the pass carry a part of the ids it started with. */
  lemma {:induction false} SurvivorIds(reg: seq<Paper>, day: int, from: nat)
    requires from <= |reg|
    ensures multiset(Ids(Survivors(reg, day, from))) <= multiset(Ids(reg[from..]))
    decreases |reg| - from
  {
    if from < |reg| {
      SurvivorIds(reg, day, from + 1);
      assert reg[from..] == [reg[from]] + reg[from + 1..];
      IdsAppend([reg[from]], reg[from + 1..]);
      IdsAppend([reg[from]], Survivors(reg, day, from + 1));
    }
  }

  /** `assign_reviews` touches no queue and only drops papers from the registry, so it never
      adds an id. */
  lemma AssignIds(cfg: Config, day: int, rs: seq<Researcher>, reg: seq<Paper>, invites: Ledger, draws: AssignDraws)
    requires PassOk(cfg, day, Pass(rs, EagerIds(rs), invites))
    ensures var a := AssignReviews(cfg, day, rs, reg, invites, draws);
      AllIds(a.registry, a.pass.researchers) <= AllIds(reg, rs)
  {
    var a := AssignReviews(cfg, day, rs, reg, invites, draws);
    assert Ids(a.registry) == Ids(Survivors(reg, day, 0));
    SurvivorIds(reg, day, 0);
    assert reg[0..] == reg;
    QueueIdsSame(rs, a.pass.researchers);
  }

  /** When the ids below the counter are distinct, replacing researcher `i` and the registry
      by versions that add at most the counter's value keeps them distinct. */
  lemma ReplaceKeepsDistinct(reg: seq<Paper>, rs: seq<Researcher>, i: nat, reg': seq<Paper>, r: Researcher, next: int, grew: bool)
    requires i < |rs| && Distinct(AllIds(reg, rs))
    requires forall p :: p in reg ==> p.id < next
    requires forall j, p :: 0 <= j < |rs| && p in rs[j].toSubmit ==> p.id < next
    requires multiset(Ids(reg')) + multiset(Ids(r.toSubmit)) ==
      multiset(Ids(reg)) + multiset(Ids(rs[i].toSubmit)) + (if grew then multiset{next} else multiset{})
    ensures AllIds(reg', rs[i := r]) == AllIds(reg, rs) + (if grew then multiset{next} else multiset{})
    ensures Distinct(AllIds(reg', rs[i := r]))
  {
    var extra := if grew then multiset{next} else multiset{};
    QueueIdsUpdate(rs, i, r);
    forall x ensures AllIds(reg', rs[i := r])[x] == (AllIds(reg, rs) + extra)[x] {
      assert (QueueIds(rs[i := r]) + multiset(Ids(rs[i].toSubmit)))[x] == (QueueIds(rs) + multiset(Ids(r.toSubmit)))[x];
      assert (multiset(Ids(reg')) + multiset(Ids(r.toSubmit)))[x] == (multiset(Ids(reg)) + multiset(Ids(rs[i].toSubmit)) + extra)[x];
    }
    IdsBelow(reg, next);
    QueueIdsBelow(rs, next);
    assert next !in AllIds(reg, rs);
  }

  /** Two positions holding the same value count it twice. */
  lemma CountTwice(s: seq<int>, i: nat, j: nat)
    requires i < |s| && j < |s|
    ensures i != j && s[i] == s[j] ==> multiset(s)[s[i]] >= 2
  {
    if i != j {
      var lo, hi := if i < j then i else j, if i < j then j else i;
      assert s == s[..hi] + s[hi..];
      assert s[..hi][lo] == s[lo];
      assert s[hi..][0] == s[hi];
    }
  }

  /** With no id held twice, the registry's ids are pairwise distinct. */
  lemma DistinctRegistry(reg: seq<Paper>, rs: seq<Researcher>)
    requires Distinct(AllIds(reg, rs))
    ensures forall i, j :: 0 <= i < j < |reg| ==> reg[i].id != reg[j].id
  {
    forall i, j | 0 <= i < j < |reg| ensures reg[i].id != reg[j].id {
      CountTwice(Ids(reg), i, j);
      assert reg[i].id in AllIds(reg, rs) ==> AllIds(reg, rs)[reg[i].id] <= 1;
    }
  }

  /** So the id lookup of line 283 (`submitted_papers_dict.get`) finds every registered paper
      at its own position. */
  lemma LookupFindsOwn(reg: seq<Paper>, rs: seq<Researcher>)
    requires Distinct(AllIds(reg, rs))
    ensures forall k :: 0 <= k < |reg| ==> FindPaper(reg, reg[k].id) == Some(k)
  {
    forall k | 0 <= k < |reg| ensures FindPaper(reg, reg[k].id) == Some(k) {
      var r := FindPaper(reg, reg[k].id);
      assert r.Some? && r.value <= k;
      CountTwice(Ids(reg), r.value, k);
      assert reg[k].id in AllIds(reg, rs) ==> AllIds(reg, rs)[reg[k].id] <= 1;
    }
  }
}

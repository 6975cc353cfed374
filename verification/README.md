# Token-based peer review: a verified model of the daily simulation

The system simulates a journal where researchers write papers, review each other's papers
and earn one token per completed review. Once a grace period is over, submitting a paper
costs as many tokens as the reviews it needs. Every researcher is either Lazy or Eager:
- an Eager researcher (one short of tokens) is invited first and takes 7 days plus a jitter
  of 0 to 10, so 7 to 17 days, per review;
- a Lazy one draws its review time from an empirical table (10 to 200 days) plus the same
  jitter.

One simulated day is `JournalModel.step`:
- the day counter advances and both per-day accumulators open today's entry;
- every researcher runs `agent_actions` in id order: write a paper, complete due reviews,
  submit what the balance allows, re-evaluate the Lazy/Eager status (moving reviews earlier
  when tokens are missing), trim its history;
- `assign_reviews` invites reviewers for every registered paper that lacks them and drops
  the fully reviewed papers;
- the rolling one-year and one-month averages and the missing-reviewers count are computed.

The model is a set of pure functions over immutable records. Each random draw is an
explicit argument:
- a `random.random()` value is a `Tables.Unit` in [0, 1);
- `randint(0, 10)` is a `Tables.Jitter`;
- `randint(0, n - 1)` is an arbitrary natural taken modulo `n`.

So every decision is a deterministic function of its draws. Python dicts keyed by day are
association lists in insertion order (`Rolling`). The `researchers` dict is a sequence
indexed by id. The active registry is the ordered `submitted_papers` list; its id lookup
is the first paper with that id, which is the only one since no id is ever held twice
(`Identity`).

Modules, in dependency order:
- `Basics`: Option, Result, `list.remove`.
- `Tables`: `coin_toss`.
- `Agents`: the records of agents.py.
- `Rolling`: the per-day accumulators.
- `Journal`: configuration, state and the small queries.
- `Actions`: `agent_actions`.
- `Assignment`: `assign_reviews`.
- `Identity`: the paper ids the simulation holds, and why none is held twice.
- `Metrics`: the statistics.
- `Population`: initialisation.
- `Simulation`: the day, the step and the invariant every day keeps.

The invariant (`Simulation.Inv`) says:
- researchers sit at their id;
- balances are non-negative;
- every queued or registered paper has an id below the counter, so fresh ids are unique;
- registered papers were submitted on or before today and never hold more slots than reviews;
- every pending commitment is scheduled after today;
- the accumulators are dicts with non-negative counts;
- no paper id is held twice, across the registry and all `papers_to_submit` queues.

`Simulation.StepKeepsInv` proves that every day that does not stop the run keeps the
invariant. It also proves that the day's figures mean what they say: the missing-reviewers
count is the number of papers missing reviewers, and each one-month average is its own
window's ratio whenever that window counted something.

Some behaviour of the code is easy to misread; the model keeps each as written:
- Demotion. An Eager acceptee is demoted to Lazy when it still needs reviews to publish
  (model.py:429-433), not when its deficit is gone (`Assignment.Commit`).
- Refusals. A refusal goes on to the next invite round; only a delay (model.py:405-406) or
  an acceptance (model.py:434) ends a slot's rounds (`Assignment.Rounds`).
- Zero denominators. The one-month averages are guarded by the 365-day count
  (model.py:236, 239), so they divide by zero when the year has entries and the month has
  none. The model returns `Failure(DivisionByZero)` there (`Metrics.MonthAverage`,
  `Metrics.MonthAverageCrashes`).
- Retention. Only the review-time dict is pruned (model.py:359); the invite ledger is
  never pruned.
- The four-day guard. The test `submission_step <= global_step + 4` (model.py:398) never
  holds a registered paper back (`Assignment.GuardAlwaysOpen`).
- Acceptance test. It is `draw <= probability` (model.py:418), so a probability of 0 still
  accepts a draw of exactly 0.0.

## Model

| member | source | states |
|---|---|---|
| Tables.FirstReaching | model.py:168-170 | the first row in ascending order whose cumulative value reaches the draw; every row before it falls short, and none reaches when it returns nothing |
| Tables.CoinToss | model.py:166-171 | `coin_toss` returns a key of the table; on a sorted table it is the smallest key whose cumulative value is at least the draw, or the largest key when none is, and never less than the smallest key |
| Tables.TwoOrThreeOutcome | model.py:270 | over `{2: p, 3: 1.0}` a draw yields 2 exactly when it is at most p, and 3 exactly when it exceeds p |
| Agents.NewResearcher | agents.py:4-14 | a new researcher is Lazy with a Lazy previous status, holds the initial tokens and the given cap, and has empty queues and histories |
| Agents.NewPaper | agents.py:20-28 | a new paper stores the given id, days, author and review count, has no slots and no invites, misses reviewers iff it needs any, and has nothing pending |
| Basics.RemoveFirst | model.py:300-302 | `list.remove` drops one element when the value is present and nothing otherwise, and adds none |
| Basics.RemoveFirstSplit | model.py:300-302 | on a present value, `list.remove` drops exactly the first equal element and keeps the others in order |
| Basics.RemoveFirstMultiset | model.py:300-302 | as multisets, `list.remove` takes away one copy of the value (none when absent) |
| Basics.RemoveEachKeepsHead | model.py:300-302 | removing values that all differ from the head keeps the head in front |
| Journal.UngatedNeedsNothing | model.py:361-376 | with gating off and a non-negative balance, `author_needs_reviews_to_publish` is false |
| Journal.SumReviewsAppend | model.py:364-367 | the tokens-to-submit sum over two queues is the sum of their sums |
| Journal.ReviewTime | model.py:74-80 | both review-time tables are non-empty, strictly ascending, and start at 7 days or more |
| Journal.ReviewDelayAtLeastWeek | model.py:74-80 | every sampled review duration is a key of its status' table and lasts at least a week |
| Journal.Recent | model.py:383-384 | the filter keeps, in order, exactly the commitments accepted on or after the cut-off |
| Journal.RecentAppend | model.py:383-384 | the filter distributes over concatenation |
| Journal.AcceptanceCountsTowardCap | model.py:382-384 | a commitment accepted today raises the trailing-year count by exactly one |
| Rolling.Get | model.py:292 | `dict.get` finds a value exactly for the days present |
| Rolling.Put | model.py:200-201 | after `dict[day] = a`, the day reads `a` and every other day reads as before |
| Rolling.PutKeepsDict | model.py:200-201 | `dict[day] = a` adds exactly that day to the keys, keeps keys unique, and keeps counts non-negative when `a`'s is |
| Rolling.ConsEntry | model.py:200-201 | the lookups, keys, key uniqueness and sign of a ledger with one entry in front |
| Rolling.Add | model.py:292 | adding to today's pair moves that day's pair by the addend and no other day, and keeps keys and signs |
| Rolling.GetNonNegative | model.py:292 | on a ledger of non-negative counts every looked-up count is non-negative |
| Rolling.Prune | model.py:359 | the comprehension keeps exactly the days at or after the bound, and keeps the ledger a dict |
| Rolling.PruneKeepsWindow | model.py:359 | pruning below `day - 366` leaves every window starting at or after the bound, so both windows of lines 235-236, unchanged |
| Rolling.AddWindow | model.py:292 | adding to a present day moves exactly the windows containing that day, by the addend |
| Rolling.PutWindow | model.py:200-201 | overwriting a present day changes a window containing it by the difference of the values, and others not at all |
| Rolling.WindowNested | model.py:235-239 | with non-negative counts the 30-day window counts no more than the 365-day window |
| Actions.Generate | model.py:262-277 | a paper is written iff the draw is below `daily_submission_prob`: it takes the current id (the counter then increments), today, no submission, 2 or 3 reviews (2 iff the draw is at most `prob_2_reviews`), no slots or invites, and is queued last; nothing else changes |
| Actions.FindPaper | model.py:283 | the lookup returns the first registry position with the id, or nothing when no paper has it |
| Actions.FindPaperSameIds | model.py:283 | the lookup depends only on the papers' ids |
| Actions.MarkSlots | model.py:285-287 | every slot of the reviewer gets today as its completion day, and every other slot is unchanged |
| Actions.MarkKeepsCount | model.py:285-287 | marking keeps the number of the reviewer's slots |
| Actions.MarkIdempotent | model.py:285-287 | marking a paper twice the same day is marking it once |
| Actions.Due | model.py:281-282 | the commitments scheduled for today and no others, never more than the queue holds |
| Actions.DueAppend | model.py:281-282 | the due filter distributes over concatenation, so the due commitments keep the queue's order |
| Actions.NotDueAppend | model.py:298-302 | the not-due filter distributes over concatenation, so the queue left keeps its order |
| Actions.DuePartition | model.py:281-302 | as multisets, the due and the not-due commitments split the queue: each due commitment moves to `reviews_done` exactly as often as it occurs |
| Actions.NotDue | model.py:298-302 | the commitments scheduled for another day and no others, never more than the queue holds |
| Actions.RemovingDueLeavesNotDue | model.py:297-302 | removing each due commitment with `list.remove` leaves exactly the commitments not due, in order, even with equal tuples |
| Actions.MarkKeepsReference | model.py:283-287 | marking one paper changes neither what commitments resolve to nor how many slots match |
| Actions.TargetedCons | model.py:281-284 | a paper is reached by a queue iff its head reaches it or its tail does |
| Actions.CompleteAllRegistry | model.py:281-297 | after the loop, each paper that some due commitment resolves to has every slot of the reviewer marked with today, and every other paper is untouched; a missing paper is skipped |
| Actions.CompleteAllTokens | model.py:285-289 | the balance grows by one per matched slot while gating is active, and not at all otherwise |
| Actions.CompleteAllLedger | model.py:285-292 | today's review-time entry grows by one per matched slot and by the days since acceptance of each |
| Actions.CompleteOneLedger | model.py:285-292 | one commitment adds its own matches and weighted days to today's entry and leaves the later commitments' totals unchanged |
| Actions.CompleteAllLedgerFrame | model.py:292 | the loop touches no other day of the ledger and keeps it a dict with non-negative counts |
| Actions.CompleteReviews | model.py:279-302 | the completion phase: due commitments move in order to `reviews_done` (even if their paper is missing), later ones stay queued, and the tokens, registry and ledger change as the three loop lemmas state |
| Actions.SubmitQueue | model.py:305-322 | without gating every paper goes and the balance is unchanged; with gating the balance drops by exactly the sent papers' review counts, stays non-negative when it was, and every paper left needs more than what remains |
| Actions.SubmitQueueMembers | model.py:305-322 | the papers left queued come from the queue, and the sent ones carry today's submission day |
| Actions.SubmitQueueStep | model.py:305-322 | one more paper at the end of the queue is sent (stamped, paying its reviews when gated) exactly when its review count is at most the balance left after the papers before it; otherwise it stays queued, after the others, and blocks nothing |
| Actions.SubmitQueuePartition | model.py:305-325 | sent and left papers together, as multisets, are exactly the queue stamped with today: no paper is lost or duplicated |
| Actions.SubmitPapers | model.py:304-325 | the sent papers leave `papers_to_submit` and are appended, in order, to `papers_submitted` and to the registry |
| Actions.Prospect | model.py:341 | the prospective day is at least today plus the table's shortest duration plus the jitter |
| Actions.Visit | model.py:342-348 | a visited commitment keeps its paper and acceptance day, is tagged Eager, and moves iff the prospective day is strictly earlier, to that day |
| Actions.Reschedule | model.py:336-349 | the queue keeps its length, at most the whole queue is visited, and with no deficit nothing is visited |
| Actions.RescheduleShape | model.py:336-349 | each commitment keeps paper and acceptance day and is only ever moved earlier, never before today plus the shortest duration; the visited prefix is Eager, the rest untouched, and stopping early means the deficit is paid |
| Actions.RescheduleAt | model.py:336-349 | the same, for the commitment at one position |
| Actions.RescheduleStops | model.py:336-338 | the loop leaves commitments unvisited only once the deficit is at most 0 |
| Actions.RescheduleNeed | model.py:336-349 | the deficit left is the starting one less the number of commitments moved earlier, and never negative |
| Actions.CountEarlierSame | model.py:342 | an unchanged queue has no commitment moved earlier |
| Actions.Reevaluate | model.py:327-356 | `prev_status` takes the old status; without a deficit the status becomes Lazy and the queue is kept; with one the queue is rescheduled, the status becomes Eager iff a deficit remains (every commitment then Eager) and is left unchanged when rescheduling covered it |
| Actions.UngatedEndsLazy | model.py:331-355 | with gating off and a non-negative balance the researcher ends the phase Lazy |
| Actions.RecentPapers | model.py:380 | the filter keeps exactly the papers generated on or after the cut-off, and no more papers than it was given |
| Actions.RecentPapersAppend | model.py:380 | the filter distributes over concatenation, so it keeps the papers' order |
| Actions.RecentNested | model.py:379-384 | filtering at a cut-off and then at a later one is filtering at the later one |
| Actions.RecentIdempotent | model.py:379 | the `accepted_step` filter applied twice is applied once |
| Actions.RecentPapersIdempotent | model.py:380 | the `generation_step` filter applied twice is applied once |
| Actions.Trim | model.py:378-380 | `clear_researcher_papers` replaces the done reviews by their `accepted_step` filter and the submitted papers by their `generation_step` filter at `day - 365`, so it keeps exactly those within 365 days, and changes nothing else |
| Actions.TrimKeepsTimeframe | model.py:378-391 | trimming never changes the trailing-year review count that the yearly cap checks, today or on any later day |
| Actions.TrimIdempotent | model.py:378-380 | trimming twice on one day is trimming once |
| Actions.Act | model.py:260-359 | `agent_actions`: the researcher keeps its id and cap, the id counter moves by at most one, the registry only grows, and today's ledger entry survives the pruning |
| Assignment.EagerIds | model.py:395 | the pool holds only Eager researchers of the population |
| Assignment.EagerIdsComplete | model.py:395 | every Eager researcher is in the pool, and the pool is in ascending id order, as the comprehension over the researchers dict builds it |
| Assignment.EagerIdsKeep | model.py:395 | a change that keeps a researcher's id and status keeps the pool |
| Assignment.EagerIdsDemote | model.py:429-433 | demoting an Eager researcher in place removes exactly its id from the pool, as `eager_researchers.remove` does |
| Assignment.EagerIdsKeepAbove | model.py:395 | positions before the scan point do not affect the rest of the pool |
| Assignment.CandidateInPopulation | model.py:410-416 | the invited researcher exists, and is Eager while the pool is non-empty; so whenever some researcher is Eager, the invited one is Eager |
| Assignment.Judge | model.py:405-418 | a round is delayed iff its response draw is at least 1/7; otherwise it reaches the candidate and is accepted iff the cap check passes and the acceptance draw is within the status probability |
| Assignment.EvolvesTrans | model.py:418-434 | two pass steps that each only append today's commitments and demote compose to one that does |
| Assignment.EvolvesRefl | model.py:418-434 | a step that changes nobody respects the pass's rules |
| Assignment.EvolvesOne | model.py:418-434 | replacing one researcher by a version that respects the rules respects them for the population |
| Assignment.Commit | model.py:420-431 | the reviewer appends a commitment accepted today in the name of its status, scheduled a table duration plus jitter ahead, so at least 7 days; an Eager reviewer that still needs reviews to publish is demoted to Lazy |
| Assignment.Accept | model.py:418-434 | an acceptance appends the slot `(rid, -1)`; today's invite entry records the paper and its invite total iff that slot is its last; a demoted reviewer leaves the pool; nobody else changes |
| Assignment.Rounds | model.py:403-436 | at most `num_invites_per_review` rounds are run, every round but the last is a refusal, and the rounds end early only on a delay or an acceptance |
| Assignment.RoundAt | model.py:403-418 | each round of the trace is the judgement of its own draw against the pass as the slot began |
| Assignment.ResponsesOfTrace | model.py:405-408 | every round that was not delayed counted one invite |
| Assignment.Invite | model.py:401-436 | one missing slot: the invite count grows by the rounds that reached a candidate, at most one pending slot is added (iff the last round accepted), and the invite ledger records the paper only when that slot completes it |
| Assignment.InviteStep | model.py:401-436 | one missing slot adds at most one pending slot after the existing ones, and today's invite entry records the paper exactly when that slot is its last |
| Assignment.SelfReviewNotExcluded | model.py:410-422 | the paper's own author can be invited and given a pending slot, whatever slots the paper already holds |
| Assignment.PendingTrans | model.py:422 | appending pending slots twice appends pending slots |
| Assignment.LedgerStepTrans | model.py:427 | two invite-ledger steps compose |
| Assignment.Slots | model.py:400-436 | all missing slots of one paper: it gains only pending slots, never beyond `num_reviews`; the invite total is recorded once, with the final count, exactly when the last slot is filled |
| Assignment.GuardAlwaysOpen | model.py:398 | the "+4 days" guard holds for every paper submitted on or before today |
| Assignment.LeavesWhenFullyReviewed | model.py:437-446 | a paper leaves the registry exactly when it has all its slots and none still holds -1 |
| Assignment.Survivors | model.py:397-446 | the papers that stay are exactly those sent to invitation or with a review outstanding |
| Assignment.AssignFrom | model.py:397-449 | the surviving papers keep their order and each only gains pending slots and invites within its review count; the population and invite ledger change only as a pass may |
| Assignment.CarriesCons | model.py:397-449 | the survivor correspondence extends by one paper in front |
| Assignment.AssignReviews | model.py:393-449 | `assign_reviews` with the pool starting as the Eager researchers in population order: the same guarantees for the whole registry |
| Identity.QueueIdsUpdate | model.py:260-359 | replacing one researcher trades its queued ids for its replacement's in the population's queued ids |
| Identity.SubmitQueueIds | model.py:305-325 | the sent and the unsent papers together carry exactly the queue's ids |
| Identity.GenerateIds | model.py:262-274 | writing a paper queues the counter's value and no other id |
| Identity.SubmitPapersIds | model.py:304-325 | submitting moves ids from the queue to the registry, neither losing nor adding one |
| Identity.ActIds | model.py:260-359 | `agent_actions` adds to the ids of the queue and registry only the counter's value, and only when the counter moves |
| Identity.SurvivorIds | model.py:437-446 | the papers that stay carry a sub-multiset of the registry's ids |
| Identity.AssignIds | model.py:393-449 | `assign_reviews` adds no id: the ids held afterwards are a sub-multiset of those before |
| Identity.ReplaceKeepsDistinct | model.py:272 | with every id held below the counter and none held twice, one researcher's action adds at most the counter's value, so still none is held twice |
| Identity.DistinctRegistry | model.py:445-446 | when no id is held twice, the registry's ids are pairwise distinct |
| Identity.LookupFindsOwn | model.py:283 | so the lookup by id finds every registered paper at its own position |
| Metrics.Ratio | model.py:235 | the ratio times the count is the total when the count is positive, and 0 otherwise |
| Metrics.YearAverage | model.py:235 | the one-year average is the 365-day total over the 365-day count, or 0 when that count is 0 |
| Metrics.MonthAverage | model.py:236 | the one-month average fails exactly when the 365-day count is positive and the 30-day count is 0; otherwise it is the 30-day ratio, or 0 when the year is empty |
| Metrics.MonthAverageAgainstRatio | model.py:236-239 | on non-negative counts it equals the 30-day ratio whenever the month counted something, and fails iff the month is empty and the year is not |
| Metrics.MonthAverageCrashes | model.py:239 | one paper staffed 100 days ago makes the one-month invite average divide by zero |
| Metrics.CountStaffed | model.py:241-244 | at most the registry size |
| Metrics.MissingCount | model.py:241-244 | the registry size less the fully staffed papers, never more than the registry |
| Metrics.Missing | model.py:241-244 | exactly the registry papers with fewer slots than reviews |
| Metrics.MissingCountCounts | model.py:241-244 | when no paper is over-staffed, the computed count is the number of papers missing reviewers |
| Metrics.Collect | model.py:235-244 | the day's statistics fail iff one of the one-month averages does, and otherwise are the four averages and the missing count |
| Population.Expand | model.py:133-136 | the nested loop hands out one cap per researcher the distribution counts |
| Population.ExpandAt | model.py:133-136 | the researcher at each position gets the cap of the band its position falls in |
| Population.Researchers | model.py:131-143 | the population has max(`num_authors`, table total) members with the table, `num_authors` without; researcher i is new, at position i, with the table's cap, the stable cap, or 0 |
| Population.NobodyStartsEager | model.py:131-143 | the initial population is indexed by id and its Eager pool is empty |
| Population.NoEagerFrom | model.py:395 | an all-Lazy population has an empty pool |
| Population.Initial | model.py:116-128 | day 0, paper ids from 1, an empty registry and empty accumulators |
| Simulation.RunAgents | agents.py:16-17 | `researcher.step()` for each researcher in id order: the population keeps its size and ids, the counter only grows, and today's ledger entry survives |
| Simulation.Open | model.py:180-201 | the counter advances and both accumulators hold `(0, 0)` for the new day, other days and everything else unchanged, dicts kept dicts |
| Simulation.Assign | model.py:219 | the pass changes only the population, registry and invite ledger |
| Simulation.Day | model.py:180-219 | the day advances by one, the population keeps its size and the id counter only grows |
| Simulation.Step | model.py:173-246 | a day fails iff its statistics fail, and otherwise records them over the day's state |
| Simulation.AgentOkGrow | model.py:272 | raising the counter keeps a researcher's facts |
| Simulation.RegistryOkGrow | model.py:272 | raising the counter keeps the registry's facts |
| Simulation.GenerateKeeps | model.py:262-274 | writing a paper keeps the researcher's facts under the raised counter |
| Simulation.CompleteKeeps | model.py:279-302 | completion leaves only commitments after today, a non-negative balance and a registry of the same shape |
| Simulation.StampKeeps | model.py:308-315 | a stamped queue is registrable today |
| Simulation.SubmitKeeps | model.py:304-325 | submission keeps the unsent papers queued, registers the sent ones and keeps the balance non-negative |
| Simulation.ReevaluateKeeps | model.py:336-349 | rescheduling keeps every commitment after today |
| Simulation.ActKeeps | model.py:260-359 | one daily action keeps the researcher's, the registry's and the ledger's facts |
| Simulation.RunAgentsKeeps | model.py:216-217 | once every researcher has acted, all of them and the registry satisfy today's facts |
| Simulation.MidDayStep | model.py:216-217 | one researcher acting advances the mid-day state by one |
| Simulation.MidDayAdvance | model.py:216-217 | replacing one researcher by its acted version advances the mid-day state |
| Simulation.EvolvesKeeps | model.py:418-434 | the pass keeps every researcher's facts, since it only appends commitments a week ahead |
| Simulation.AssignKeepsRegistry | model.py:397-446 | the registry after the pass still holds only registered, never over-staffed papers |
| Simulation.DayKeepsInv | model.py:173-219 | a day's work keeps the invariant |
| Simulation.OpenKeeps | model.py:180-201 | opening a day gives the state the researchers start from |
| Simulation.AssignKeepsInv | model.py:393-449 | the pass turns the state after the researchers' actions into one satisfying the invariant |
| Simulation.StepKeepsInv | model.py:173-246 | every day that does not stop the run keeps the invariant (no paper id held twice included) and records a missing count equal to the papers missing reviewers and one-month averages equal to their windows' ratios |
| Simulation.SnapshotKeeps | model.py:235-246 | recording a successful day's statistics keeps the invariant and gives them that meaning |
| Simulation.CollectMeaning | model.py:235-244 | the statistics of an invariant-satisfying state mean what they say |
| Simulation.InitialInv | model.py:116-143 | the initial state satisfies the invariant when at least one author is configured and the initial balance is non-negative |
| Simulation.StartInv | model.py:130-143 | any population built from a distribution, with nothing registered or recorded, satisfies the invariant |

## Left out

- The log file, CSV output, Mesa `DataCollector` and base class, matplotlib and `verboseLog` (model.py:36-58, 147-164, 246-251): output only. The error logs at lines 294 and 296 become "skip and continue".
- app.py: user interface only; app.py is not part of this model.
- The statistics of the random generator: every draw is an input, and nothing is claimed about its distribution.
- Floating point: probabilities and averages are Dafny reals, not IEEE doubles.
- The stable cap `int(365 * daily_submission_prob * (3 - prob_2_reviews))` (model.py:132) is computed in floating point; it is the configuration parameter `stableCap`.
- The per-step counters, the heat maps and the no-stats block (model.py:181-209, 225-233), `inviting_lazy_in_step`, `became_eager` and `reviewers_invited`: nothing reads them.
- `max_yearly_reviews_per_author` (model.py:30, 71): stored but never read.
- `get_authors_generations_in_timeframe` (model.py:386-388) and `get_author_tokens_needed` / `author_needs_tokens` (model.py:369-373): never called, and the latter passes `self` twice and would raise.
- `num_authors` below 1: `randint(0, -1)` raises, so every member about a day requires at least one author and at most as many authors as researchers.
- Object sharing: a submitted paper is one object in both the registry and the author's `papers_submitted`. The model keeps a copy in `papers_submitted`, and only its `generation_step` is ever read there.
- `submitted_papers_dict`: it is the registry keyed by id, and the model looks papers up in the registry directly. Because no id is held twice (`Simulation.Inv`, `Identity.LookupFindsOwn`), the first paper with an id is the dict's entry, and `del` on it and `list.remove` on the list (model.py:445-446) drop the same paper.
- Comparing a submission of `None` with an integer at model.py:398 would raise; no registered paper lacks a submission day, so `Assignment.Activated` treats that case as not activated.
- Population.Researchers: the table total is not evaluated; the contract is stated over any distribution. The 31 bands of model.py:82-114 add up to 135,957, so with the default `num_authors` of 135,972 (model.py:18) the last 15 researchers get the stable cap.
- Simulation.Step: only the four averages and the missing count are recorded; the submitted and in-review counts are the registry size and its difference with the missing count, which are not stored separately.

/** The population built by `JournalModel.__init__` (model.py lines 130-143) and the initial
    simulation state. */
module Population {

  import opened Agents
  import opened Journal
  import Assignment

  /** One entry of `reviewers_distributions`: `count` researchers get the yearly cap `cap`. */
  datatype Band = Band(cap: int, count: nat)

  /** `reviewers_distributions` in its insertion order: caps 10 to 40, from 8386 researchers
      down to 386. */
  const DISTRIBUTION: seq<Band> := [
    Band(10, 8386), Band(11, 8119), Band(12, 7852), Band(13, 7586), Band(14, 7319),
    Band(15, 7052), Band(16, 6786), Band(17, 6519), Band(18, 6252), Band(19, 5986),
    Band(20, 5719), Band(21, 5452), Band(22, 5186), Band(23, 4919), Band(24, 4652),
    Band(25, 4387), Band(26, 4119), Band(27, 3852), Band(28, 3586), Band(29, 3319),
    Band(30, 3052), Band(31, 2786), Band(32, 2519), Band(33, 2252), Band(34, 1986),
    Band(35, 1719), Band(36, 1452), Band(37, 1186), Band(38, 919), Band(39, 652),
    Band(40, 386)]

  /** The number of researchers a distribution describes. */
  function Total(d: seq<Band>): nat {
    if d == [] then 0 else d[0].count + Total(d[1..])
  }

  /** The caps the nested loop of lines 133-136 hands out, in id order. */
  function Expand(d: seq<Band>): (caps: seq<int>)
    ensures |caps| == Total(d)
  {
    if d == [] then [] else seq(d[0].count, _ => d[0].cap) + Expand(d[1..])
  }

  /** The cap of the researcher at position `i`: the band whose running count first exceeds `i`. */
  function CapAt(d: seq<Band>, i: nat): int
    requires i < Total(d)
  {
    if i < d[0].count then d[0].cap else CapAt(d[1..], i - d[0].count)
  }

  /** The expansion gives every position the cap of its band. */
  lemma {:induction false} ExpandAt(d: seq<Band>, i: nat)
    requires i < Total(d)
    ensures Expand(d)[i] == CapAt(d, i)
  {
    if i >= d[0].count {
      ExpandAt(d[1..], i - d[0].count);
    }
  }

  /** The yearly cap given to researcher `i`: from the distribution, then the stable cap for
      the ids up to `num_authors`; or 0 (no cap) for everyone. */
  function CapOf(cfg: Config, d: seq<Band>, i: nat): int {
    if !cfg.capsFromDistribution then 0
    else if i < Total(d) then CapAt(d, i)
    else cfg.stableCap
  }

  /** The population size: the larger of the distribution's and `num_authors` with the
      distribution, `num_authors` without it (none when it is not positive). */
  function Size(cfg: Config, d: seq<Band>): nat {
    var n := if cfg.numAuthors > 0 then cfg.numAuthors else 0;
    if cfg.capsFromDistribution && Total(d) > n then Total(d) else n
  }

  /** The researchers of lines 130-143: researcher `i` sits at position `i`, starts Lazy with the
      initial tokens and nothing queued, and has the cap `CapOf` gives it. */
  function Researchers(cfg: Config, d: seq<Band>): (rs: seq<Researcher>)
    ensures |rs| == Size(cfg, d)
    ensures forall i :: 0 <= i < |rs| ==> rs[i] == NewResearcher(i, CapOf(cfg, d, i), cfg.initialTokens)
  {
    var n := Size(cfg, d);
    if cfg.capsFromDistribution then
      var caps := Expand(d) + seq(n - Total(d), _ => cfg.stableCap);
      assert forall i :: 0 <= i < n ==> caps[i] == CapOf(cfg, d, i) by {
        forall i | 0 <= i < n ensures caps[i] == CapOf(cfg, d, i) {
          if i < Total(d) { ExpandAt(d, i); }
        }
      }
      seq(n, i requires 0 <= i < n => NewResearcher(i, caps[i], cfg.initialTokens))
    else
      seq(n, i requires 0 <= i < n => NewResearcher(i, 0, cfg.initialTokens))
  }

  /** Everyone starts Lazy, so the initial Eager pool is empty. */
  lemma NobodyStartsEager(cfg: Config, d: seq<Band>)
    ensures Assignment.WellIndexed(Researchers(cfg, d))
    ensures Assignment.EagerIds(Researchers(cfg, d)) == []
  {
    var rs := Researchers(cfg, d);
    NoEagerFrom(rs, 0);
  }

  lemma {:induction false} NoEagerFrom(rs: seq<Researcher>, from: nat)
    requires from <= |rs| && forall i :: 0 <= i < |rs| ==> rs[i].status == Lazy
    ensures Assignment.EagerIds(rs, from) == []
    decreases |rs| - from
  {
    if from < |rs| { NoEagerFrom(rs, from + 1); }
  }

  /** The state before the first day: day 0, paper ids starting at 1, an empty registry, empty
      accumulators and zero statistics. */
  function Initial(cfg: Config): (s: Sim)
    ensures s.day == 0 && s.nextPaperId == 1 && s.registry == []
    ensures s.researchers == Researchers(cfg, DISTRIBUTION)
    ensures s.revTime == [] && s.invites == []
    ensures s.snapshot == Snapshot(0.0, 0.0, 0.0, 0.0, 0)
  {
    Sim(cfg, 0, 1, Researchers(cfg, DISTRIBUTION), [], [], [], Snapshot(0.0, 0.0, 0.0, 0.0, 0))
  }
}

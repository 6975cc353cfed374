/** Cumulative-threshold tables and the weighted lookup `coin_toss` of model.py. */
module Tables {

  import opened Basics

  /** A uniform draw from [0, 1), the range of `random.random()`. */
  type Unit = x: real | 0.0 <= x < 1.0

  /** A draw of `random.randint(0, 10)`, the jitter added to review durations. */
  type Jitter = j: int | 0 <= j <= 10

  /** One item of a cumulative table: an outcome and the cumulative probability reached at it. */
  datatype Row = Row(key: int, cum: real)

  /** The items of a table dict, listed in the order `sorted(dict.items())` visits them. */
  type Table = seq<Row>

  /** Keys strictly ascending: what sorting the items of a dict (whose keys are distinct) produces. */
  predicate Ascending(t: Table) {
    forall i, j :: 0 <= i < j < |t| ==> t[i].key < t[j].key
  }

  function Keys(t: Table): set<int> {
    set i | 0 <= i < |t| :: t[i].key
  }

  /** Index of the first row at or after `from` whose cumulative value reaches the draw, if any. */
  function FirstReaching(t: Table, n: real, from: nat): (r: Option<nat>)
    requires from <= |t|
    decreases |t| - from
    ensures r.Some? ==> from <= r.value < |t| && t[r.value].cum >= n
    ensures r.Some? ==> forall j :: from <= j < r.value ==> t[j].cum < n
    ensures r.None? ==> forall j :: from <= j < |t| ==> t[j].cum < n
  {
    if from == |t| then None
    else if t[from].cum >= n then Some(from)
    else FirstReaching(t, n, from + 1)
  }

  /** The lookup: the result is a key of the table. On an ascending table it is the smallest
      key whose cumulative value is at least the draw, or, when no key reaches the draw, the
      largest key; either way it is at least the smallest key. */
  function CoinToss(t: Table, n: real): (r: int)
    requires t != []
    ensures r in Keys(t)
    ensures Ascending(t) && (exists i :: 0 <= i < |t| && t[i].cum >= n) ==>
      exists i :: 0 <= i < |t| && t[i].key == r && t[i].cum >= n
    ensures Ascending(t) ==> forall i :: 0 <= i < |t| && t[i].cum >= n ==> r <= t[i].key
    ensures Ascending(t) && (forall i :: 0 <= i < |t| ==> t[i].cum < n) ==>
      forall i :: 0 <= i < |t| ==> t[i].key <= r
    ensures Ascending(t) ==> t[0].key <= r
  {
    match FirstReaching(t, n, 0)
    case Some(i) =>
      assert t[i].key in Keys(t);
      assert Ascending(t) ==> forall j :: 0 <= j < |t| && t[j].cum >= n ==> t[i].key <= t[j].key by {
        if Ascending(t) {
          forall j | 0 <= j < |t| && t[j].cum >= n ensures t[i].key <= t[j].key {
            if j > i { assert t[i].key < t[j].key; }
          }
        }
      }
      assert Ascending(t) && i > 0 ==> t[0].key < t[i].key;
      t[i].key
    case None =>
      assert t[|t| - 1].key in Keys(t);
      assert Ascending(t) ==> forall j :: 0 <= j < |t| - 1 ==> t[j].key < t[|t| - 1].key;
      t[|t| - 1].key
  }

  /** The two-outcome table `{2: p, 3: 1.0}` that picks a paper's number of reviews. */
  function TwoOrThree(p: real): (t: Table)
    ensures t != [] && Ascending(t)
  {
    [Row(2, p), Row(3, 1.0)]
  }

  /** Over `{2: p, 3: 1.0}` a draw from [0, 1) yields 2 exactly when it is at most p, and 3 otherwise. */
  lemma TwoOrThreeOutcome(p: real, n: Unit)
    ensures CoinToss(TwoOrThree(p), n) == 2 <==> n <= p
    ensures CoinToss(TwoOrThree(p), n) == 3 <==> n > p
  {
    assert FirstReaching(TwoOrThree(p), n, 2) == None;
  }
}

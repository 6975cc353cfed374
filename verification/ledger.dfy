/** The per-day accumulators of model.py (`moving_average_rev_time_dict` and
    `moving_average_inv_per_pap_dict`): dicts from a day to a (count, total) pair, kept here as
    association lists in the dicts' insertion order. */
module Rolling {

  import opened Basics

  /** A (count, summed amount) pair. */
  datatype Acc = Acc(count: int, total: int)

  datatype Entry = Entry(day: int, acc: Acc)

  type Ledger = seq<Entry>

  function Plus(a: Acc, b: Acc): Acc {
    Acc(a.count + b.count, a.total + b.total)
  }

  lemma PlusAssoc(a: Acc, b: Acc, c: Acc)
    ensures Plus(Plus(a, b), c) == Plus(a, Plus(b, c))
  {
  }

  /** No day occurs twice: the association list represents a dict. */
  predicate UniqueDays(l: Ledger) {
    forall i, j :: 0 <= i < j < |l| ==> l[i].day != l[j].day
  }

  /** Every recorded count is non-negative. */
  predicate NonNegative(l: Ledger) {
    forall i :: 0 <= i < |l| ==> l[i].acc.count >= 0
  }

  function Days(l: Ledger): set<int> {
    set i | 0 <= i < |l| :: l[i].day
  }

  lemma DaysCons(l: Ledger)
    requires l != []
    ensures Days(l) == {l[0].day} + Days(l[1..])
  {
    forall d | d in Days(l) ensures d in {l[0].day} + Days(l[1..]) {
      var i :| 0 <= i < |l| && l[i].day == d;
      if i > 0 { assert l[1..][i - 1].day == d; }
    }
    forall d | d in Days(l[1..]) ensures d in Days(l) {
      var i :| 0 <= i < |l[1..]| && l[1..][i].day == d;
      assert l[i + 1].day == d;
    }
  }

  /** `dict.get(day)`. */
  function Get(l: Ledger, day: int): (r: Option<Acc>)
    ensures r.Some? <==> day in Days(l)
  {
    if l == [] then None
    else if l[0].day == day then Some(l[0].acc)
    else
      DaysCons(l);
      Get(l[1..], day)
  }

  /** `dict[day] = a`: overwrites the entry in place when the day is present, appends otherwise. */
  function Put(l: Ledger, day: int, a: Acc): (r: Ledger)
    ensures Get(r, day) == Some(a)
    ensures forall d :: d != day ==> Get(r, d) == Get(l, d)
  {
    if l == [] then
      ConsEntry(Entry(day, a), []);
      [Entry(day, a)]
    else
      ConsEntry(l[0], l[1..]);
      assert l == [l[0]] + l[1..];
      var rest := if l[0].day == day then l[1..] else Put(l[1..], day, a);
      var head := if l[0].day == day then Entry(day, a) else l[0];
      ConsEntry(head, rest);
      [head] + rest
  }

  /** `dict[day] = a` keeps a dict a dict: the day joins the keys, no key repeats, and counts stay
      non-negative when the new one is. */
  lemma {:induction false} PutKeepsDict(l: Ledger, day: int, a: Acc)
    ensures Days(Put(l, day, a)) == Days(l) + {day}
    ensures UniqueDays(l) ==> UniqueDays(Put(l, day, a))
    ensures NonNegative(l) && a.count >= 0 ==> NonNegative(Put(l, day, a))
  {
    if l == [] {
      ConsEntry(Entry(day, a), []);
    } else {
      ConsEntry(l[0], l[1..]);
      assert l == [l[0]] + l[1..];
      if l[0].day == day {
        assert Put(l, day, a) == [Entry(day, a)] + l[1..];
        ConsEntry(Entry(day, a), l[1..]);
      } else {
        assert Put(l, day, a) == [l[0]] + Put(l[1..], day, a);
        PutKeepsDict(l[1..], day, a);
        ConsEntry(l[0], Put(l[1..], day, a));
      }
    }
  }

  /** The dict facts of a ledger with one entry in front. */
  lemma ConsEntry(e: Entry, rest: Ledger)
    ensures ([e] + rest)[0] == e && ([e] + rest)[1..] == rest
    ensures forall d :: Get([e] + rest, d) == if e.day == d then Some(e.acc) else Get(rest, d)
    ensures Days([e] + rest) == {e.day} + Days(rest)
    ensures UniqueDays([e] + rest) <==> e.day !in Days(rest) && UniqueDays(rest)
    ensures NonNegative([e] + rest) <==> e.acc.count >= 0 && NonNegative(rest)
  {
    var l := [e] + rest;
    assert l[1..] == rest;
    DaysCons(l);
    if e.day !in Days(rest) && UniqueDays(rest) {
      forall i, j | 0 <= i < j < |l| ensures l[i].day != l[j].day {
        if i == 0 { assert l[j] == rest[j - 1]; }
        else { assert l[i] == rest[i - 1] && l[j] == rest[j - 1]; }
      }
    }
    if UniqueDays(l) {
      forall i, j | 0 <= i < j < |rest| ensures rest[i].day != rest[j].day {
        assert l[i + 1] == rest[i] && l[j + 1] == rest[j];
      }
    }
    if NonNegative(l) {
      forall i | 0 <= i < |rest| ensures rest[i].acc.count >= 0 {
        assert l[i + 1] == rest[i];
      }
    }
  }

  /** `dict[day] = (dict[day][0] + count, dict[day][1] + total)` on a day already present. */
  function Add(l: Ledger, day: int, count: int, total: int): (r: Ledger)
    requires day in Days(l)
    ensures Get(r, day) == Some(Plus(Get(l, day).value, Acc(count, total)))
    ensures forall d :: d != day ==> Get(r, d) == Get(l, d)
    ensures Days(r) == Days(l)
    ensures UniqueDays(l) ==> UniqueDays(r)
    ensures NonNegative(l) && count >= 0 ==> NonNegative(r)
  {
    assert NonNegative(l) ==> Get(l, day).value.count >= 0 by {
      if NonNegative(l) { GetNonNegative(l, day); }
    }
    PutKeepsDict(l, day, Plus(Get(l, day).value, Acc(count, total)));
    Put(l, day, Plus(Get(l, day).value, Acc(count, total)))
  }

  lemma {:induction false} GetNonNegative(l: Ledger, d: int)
    requires NonNegative(l) && Get(l, d).Some?
    ensures Get(l, d).value.count >= 0
  {
    if l[0].day != d {
      assert NonNegative(l[1..]);
      GetNonNegative(l[1..], d);
    }
  }

  /** The dict comprehension that keeps only the days at or after `lo`. */
  function Prune(l: Ledger, lo: int): (r: Ledger)
    ensures forall d :: Get(r, d) == if d >= lo then Get(l, d) else None
    ensures UniqueDays(l) ==> UniqueDays(r)
    ensures NonNegative(l) ==> NonNegative(r)
    ensures |r| <= |l|
  {
    if l == [] then []
    else
      var rest := Prune(l[1..], lo);
      var r := if l[0].day >= lo then [l[0]] + rest else rest;
      assert UniqueDays(l) ==> UniqueDays(r) by {
        if UniqueDays(l) && l[0].day >= lo {
          DaysCons(l);
          assert Get(rest, l[0].day) == None;
          assert l[0].day !in Days(rest);
        }
      }
      r
  }

  /** The summed (count, total) of every entry whose day is at or after `lo`: the two `sum(...)`
      comprehensions of the rolling averages. */
  function Window(l: Ledger, lo: int): Acc {
    if l == [] then Acc(0, 0)
    else if l[0].day >= lo then Plus(l[0].acc, Window(l[1..], lo))
    else Window(l[1..], lo)
  }

  /** Pruning below `lo` leaves every window that starts at or after `lo` unchanged. */
  lemma {:induction false} PruneKeepsWindow(l: Ledger, lo: int, from: int)
    requires lo <= from
    ensures Window(Prune(l, lo), from) == Window(l, from)
  {
    if l != [] {
      PruneKeepsWindow(l[1..], lo, from);
    }
  }

  /** Adding to a day that is present moves exactly the windows that contain that day. */
  lemma {:induction false} AddWindow(l: Ledger, day: int, count: int, total: int, from: int)
    requires UniqueDays(l) && day in Days(l)
    ensures Window(Add(l, day, count, total), from)
         == if day >= from then Plus(Window(l, from), Acc(count, total)) else Window(l, from)
  {
    PutWindow(l, day, Plus(Get(l, day).value, Acc(count, total)), from);
  }

  /** Overwriting a present day changes a window containing it by the difference of the values
      (the overwritten entry is the first one for that day, which is also the one `Get` reads). */
  lemma {:induction false} PutWindow(l: Ledger, day: int, a: Acc, from: int)
    requires Get(l, day).Some?
    ensures day < from ==> Window(Put(l, day, a), from) == Window(l, from)
    ensures day >= from ==>
      Window(Put(l, day, a), from).count == Window(l, from).count - Get(l, day).value.count + a.count
    ensures day >= from ==>
      Window(Put(l, day, a), from).total == Window(l, from).total - Get(l, day).value.total + a.total
  {
    var r := Put(l, day, a);
    if l[0].day == day {
      assert r == [Entry(day, a)] + l[1..];
      assert r[0] == Entry(day, a) && r[1..] == l[1..];
    } else {
      var rest := Put(l[1..], day, a);
      PutWindow(l[1..], day, a, from);
      assert r == [l[0]] + rest;
      assert r[0] == l[0] && r[1..] == rest;
    }
  }

  /** With non-negative counts, a window that starts later holds no more entries than one that
      starts earlier. */
  lemma {:induction false} WindowNested(l: Ledger, early: int, late: int)
    requires NonNegative(l) && early <= late
    ensures 0 <= Window(l, late).count <= Window(l, early).count
  {
    if l != [] {
      assert NonNegative(l[1..]);
      WindowNested(l[1..], early, late);
    }
  }
}

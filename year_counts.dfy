/**
 * The `count_by_year` statistic of the two violation tools: for every
 * returned item whose date has a non-empty four-character prefix, that
 * prefix's counter goes up by one (`by_year[y] = by_year.get(y, 0) + 1`).
 */
module YearCounts {

  /** `by_year[y] = by_year.get(y, 0) + 1` */
  function Bump(m: map<string, nat>, y: string): (r: map<string, nat>)
    ensures r.Keys == m.Keys + {y}
    ensures r[y] == (if y in m then m[y] else 0) + 1
    ensures forall k :: k in m && k != y ==> r[k] == m[k]
  {
    m[y := (if y in m then m[y] else 0) + 1]
  }

  /** The counters after processing the year prefixes `ys` in order (`if y:` skips the empty one). */
  function CountByYear(ys: seq<string>): map<string, nat> {
    if ys == [] then map[]
    else
      var m := CountByYear(ys[..|ys| - 1]);
      var y := ys[|ys| - 1];
      if y != "" then Bump(m, y) else m
  }

  /** Processing one more prefix. */
  lemma CountByYearSnoc(ys: seq<string>, y: string)
    ensures CountByYear(ys + [y]) == if y != "" then Bump(CountByYear(ys), y) else CountByYear(ys)
  {
    assert (ys + [y])[..|ys|] == ys;
  }

  /** How often `y` occurs in `ys`. */
  function Occurrences(ys: seq<string>, y: string): (n: nat)
    ensures n <= |ys|
    ensures n > 0 <==> y in ys
  {
    if ys == [] then 0
    else Occurrences(ys[..|ys| - 1], y) + (if ys[|ys| - 1] == y then 1 else 0)
  }

  /**
   * The keys are exactly the non-empty prefixes that occur, and each key
   * counts its occurrences.
   */
  lemma {:induction false} CountByYearCounts(ys: seq<string>, y: string)
    ensures y in CountByYear(ys) <==> y != "" && y in ys
    ensures y in CountByYear(ys) ==> CountByYear(ys)[y] == Occurrences(ys, y)
  {
    if ys != [] {
      var init := ys[..|ys| - 1];
      CountByYearCounts(init, y);
      assert ys == init + [ys[|ys| - 1]];
    }
  }

  /** The sum of all counters. */
  ghost function Total(m: map<string, nat>): nat
    decreases |m|
  {
    if m == map[] then 0
    else
      var k :| k in m;
      assert |m - {k}| < |m| by {
        assert (m - {k}).Keys == m.Keys - {k};
      }
      m[k] + Total(m - {k})
  }

  /** The total does not depend on which key is taken out first. */
  lemma {:induction false} TotalWithout(m: map<string, nat>, k: string)
    requires k in m
    ensures Total(m) == m[k] + Total(m - {k})
    decreases |m|
  {
    var k' :| k' in m && Total(m) == m[k'] + Total(m - {k'});
    if k' != k {
      assert (m - {k}).Keys == m.Keys - {k};
      assert (m - {k'}).Keys == m.Keys - {k'};
      TotalWithout(m - {k'}, k);
      TotalWithout(m - {k}, k');
      assert m - {k'} - {k} == m - {k} - {k'};
    }
  }

  /** Bumping one counter adds one to the total. */
  lemma TotalBump(m: map<string, nat>, y: string)
    ensures Total(Bump(m, y)) == Total(m) + 1
  {
    var r := Bump(m, y);
    TotalWithout(r, y);
    assert r - {y} == m - {y};
    if y in m {
      TotalWithout(m, y);
    } else {
      assert m - {y} == m;
    }
  }

  /** The counters sum to the number of prefixes that are non-empty. */
  lemma {:induction false} CountByYearTotal(ys: seq<string>)
    ensures Total(CountByYear(ys)) == |ys| - Occurrences(ys, "")
  {
    if ys == [] {
      assert CountByYear(ys) == map[];
    } else {
      var init := ys[..|ys| - 1];
      CountByYearTotal(init);
      if ys[|ys| - 1] != "" {
        TotalBump(CountByYear(init), ys[|ys| - 1]);
      }
    }
  }
}

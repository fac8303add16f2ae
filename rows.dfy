/**
 * CSV rows as the tools see them: `_fetch_csv_rows` hands over each record
 * with keys and values stripped (mcp_server/server.py line 114), and `_pick`
 * reads the first usable column out of a list of candidate names.
 */
module Rows {
  import opened Wrappers
  import opened Text

  /** One cleaned CSV record: column name to cell text. */
  type Row = map<string, string>

  /** One `(key, value)` pair of a `csv.DictReader` record; either side may be `None`. */
  datatype RawField = RawField(key: Option<string>, value: Option<string>)

  function CleanKey(f: RawField): string {
    Strip(f.key.GetOr(""))
  }

  function CleanValue(f: RawField): string {
    Strip(f.value.GetOr(""))
  }

  /** Inserting `(key, value)` pairs into a dictionary in order: a later key overwrites an earlier one. */
  function InsertAll(pairs: seq<(string, string)>): Row {
    if pairs == [] then map[]
    else
      var last := pairs[|pairs| - 1];
      InsertAll(pairs[..|pairs| - 1])[last.0 := last.1]
  }

  /** The stripped `(key, value)` pair of every field, in order. */
  function CleanPairs(fields: seq<RawField>): (pairs: seq<(string, string)>)
    ensures |pairs| == |fields|
  {
    seq(|fields|, i requires 0 <= i < |fields| => (CleanKey(fields[i]), CleanValue(fields[i])))
  }

  /** `{(k or "").strip(): (v or "").strip() for k, v in row.items()}` */
  function CleanRow(fields: seq<RawField>): Row {
    InsertAll(CleanPairs(fields))
  }

  /** Every entry of the dictionary is one of the inserted pairs. */
  lemma {:induction false} InsertAllFrom(pairs: seq<(string, string)>, k: string)
    requires k in InsertAll(pairs)
    ensures exists i :: 0 <= i < |pairs| && pairs[i] == (k, InsertAll(pairs)[k])
  {
    var n := |pairs|;
    if pairs[n - 1].0 != k {
      var init := pairs[..n - 1];
      InsertAllFrom(init, k);
      var i :| 0 <= i < n - 1 && init[i] == (k, InsertAll(init)[k]);
      assert pairs[i] == init[i];
    }
  }

  /** A pair whose key no later pair repeats supplies the dictionary's value for that key. */
  lemma {:induction false} InsertAllLastWins(pairs: seq<(string, string)>, i: nat)
    requires i < |pairs|
    requires forall j :: i < j < |pairs| ==> pairs[j].0 != pairs[i].0
    ensures pairs[i].0 in InsertAll(pairs) && InsertAll(pairs)[pairs[i].0] == pairs[i].1
  {
    var n := |pairs|;
    if i < n - 1 {
      var init := pairs[..n - 1];
      assert init[i] == pairs[i];
      forall j | i < j < |init| ensures init[j].0 != init[i].0 {
        assert init[j] == pairs[j];
      }
      InsertAllLastWins(init, i);
    }
  }

  /** Every key and every value of the cleaned row is stripped, and every key comes from a field. */
  lemma CleanRowFrom(fields: seq<RawField>, k: string)
    requires k in CleanRow(fields)
    ensures IsStripped(k) && IsStripped(CleanRow(fields)[k])
    ensures exists i :: 0 <= i < |fields| && CleanKey(fields[i]) == k && CleanValue(fields[i]) == CleanRow(fields)[k]
  {
    var pairs := CleanPairs(fields);
    InsertAllFrom(pairs, k);
    var i :| 0 <= i < |pairs| && pairs[i] == (k, InsertAll(pairs)[k]);
    assert CleanKey(fields[i]) == k && CleanValue(fields[i]) == CleanRow(fields)[k];
  }

  /** A field that no later field overrides supplies its stripped value. */
  lemma CleanRowLastWins(fields: seq<RawField>, i: nat)
    requires i < |fields|
    requires forall j :: i < j < |fields| ==> CleanKey(fields[j]) != CleanKey(fields[i])
    ensures CleanKey(fields[i]) in CleanRow(fields)
    ensures CleanRow(fields)[CleanKey(fields[i])] == CleanValue(fields[i])
  {
    var pairs := CleanPairs(fields);
    forall j | i < j < |pairs| ensures pairs[j].0 != pairs[i].0 {
      assert pairs[j].0 == CleanKey(fields[j]);
    }
    InsertAllLastWins(pairs, i);
  }

  /** Column `k` is present with a non-empty value (`k in d and d[k] != ""`). */
  predicate Usable(d: Row, k: string) {
    k in d && d[k] != ""
  }

  /** The position of the first usable candidate column, if any. */
  function FirstUsable(d: Row, keys: seq<string>): (r: Option<nat>)
    ensures r.Some? ==> r.value < |keys| && Usable(d, keys[r.value])
    ensures r.Some? ==> forall j :: 0 <= j < r.value ==> !Usable(d, keys[j])
    ensures r.None? ==> forall j :: 0 <= j < |keys| ==> !Usable(d, keys[j])
  {
    if keys == [] then None
    else if Usable(d, keys[0]) then Some(0)
    else match FirstUsable(d, keys[1..])
      case None => None
      case Some(j) => Some(j + 1)
  }

  /**
   * `_pick(d, *keys)`: the value of the first candidate column that is
   * present and non-empty; None exactly when there is no such column.
   */
  function Pick(d: Row, keys: seq<string>): (r: Option<string>)
    ensures r.None? <==> forall j :: 0 <= j < |keys| ==> !Usable(d, keys[j])
    ensures r.Some? ==> r.value != ""
    ensures r.Some? ==> exists i :: 0 <= i < |keys| && Usable(d, keys[i]) && r.value == d[keys[i]]
                                   && forall j :: 0 <= j < i ==> !Usable(d, keys[j])
  {
    match FirstUsable(d, keys)
    case None => None
    case Some(i) => Some(d[keys[i]])
  }
}

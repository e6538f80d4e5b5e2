/**
 * find_first_existing_column: the first candidate, in priority order, that
 * names a column when both are lowered, reported under the column's own
 * spelling.
 */
module Lookup {
  import opened Wrappers
  import opened Strings

  /** Some column lowers to the same string as the candidate. */
  predicate Matches(columns: seq<string>, cand: string) {
    exists j :: 0 <= j < |columns| && Lower(columns[j]) == Lower(cand)
  }

  /**
   * {c.lower(): c for c in columns}: the comprehension assigns left to right,
   * so a later column overwrites an earlier one with the same lower form.
   */
  function LowerMap(columns: seq<string>): map<string, string>
  {
    if columns == [] then map[]
    else LowerMap(columns[..|columns| - 1])[Lower(columns[|columns| - 1]) := columns[|columns| - 1]]
  }

  /** The last position whose column lowers to key, which every key in the map has. */
  predicate LastWithKey(columns: seq<string>, key: string, j: int) {
    && 0 <= j < |columns|
    && Lower(columns[j]) == key
    && forall j' :: j < j' < |columns| ==> Lower(columns[j']) != key
  }

  /** The map's keys are the lower forms of the columns. */
  lemma {:induction false} LowerMapKeys(columns: seq<string>)
    ensures forall k :: k in LowerMap(columns) <==> exists j :: 0 <= j < |columns| && Lower(columns[j]) == k
    decreases |columns|
  {
    if columns != [] {
      var n := |columns| - 1;
      var init := columns[..n];
      LowerMapKeys(init);
      forall k ensures k in LowerMap(columns) <==> exists j :: 0 <= j < |columns| && Lower(columns[j]) == k {
        if k in LowerMap(init) && k != Lower(columns[n]) {
          var j :| 0 <= j < |init| && Lower(init[j]) == k;
          assert columns[j] == init[j];
        }
        if exists j :: 0 <= j < |columns| && Lower(columns[j]) == k {
          var j :| 0 <= j < |columns| && Lower(columns[j]) == k;
          if j < n {
            assert init[j] == columns[j];
          }
        }
      }
    }
  }

  /** Each key maps to the last column that lowers to it. */
  lemma {:induction false} LowerMapValues(columns: seq<string>)
    ensures forall k :: k in LowerMap(columns) ==>
              exists j :: LastWithKey(columns, k, j) && columns[j] == LowerMap(columns)[k]
    decreases |columns|
  {
    if columns != [] {
      var n := |columns| - 1;
      var init := columns[..n];
      LowerMapValues(init);
      var m := LowerMap(columns);
      forall k | k in m ensures exists j :: LastWithKey(columns, k, j) && columns[j] == m[k] {
        if k == Lower(columns[n]) {
          assert LastWithKey(columns, k, n);
        } else {
          var j :| LastWithKey(init, k, j) && init[j] == LowerMap(init)[k];
          assert columns[j] == init[j];
          forall j' | j < j' < |columns| ensures Lower(columns[j']) != k {
            if j' < n {
              assert columns[j'] == init[j'];
            }
          }
          assert LastWithKey(columns, k, j);
        }
      }
    }
  }

  /**
   * The map's keys are the lowered columns, and each key maps to the last
   * column that lowers to it.
   */
  lemma LowerMapSpec(columns: seq<string>)
    ensures forall k :: k in LowerMap(columns) <==> exists j :: 0 <= j < |columns| && Lower(columns[j]) == k
    ensures forall k :: k in LowerMap(columns) ==>
              exists j :: LastWithKey(columns, k, j) && columns[j] == LowerMap(columns)[k]
  {
    LowerMapKeys(columns);
    LowerMapValues(columns);
  }

  /** The lookup as the source writes it, one candidate at a time. */
  function FirstExisting(columns: seq<string>, candidates: seq<string>): (r: Option<string>)
    decreases |candidates|
  {
    if candidates == [] then None
    else
      var colsLower := LowerMap(columns);
      if Lower(candidates[0]) in colsLower then Some(colsLower[Lower(candidates[0])])
      else FirstExisting(columns, candidates[1..])
  }

  /**
   * No column is found exactly when no candidate matches; a found name is a
   * column, it matches a candidate before which none matched, and no later
   * column lowers to the same string.
   */
  lemma {:induction false} FirstExistingSpec(columns: seq<string>, candidates: seq<string>)
    ensures FirstExisting(columns, candidates).None? <==>
              forall i :: 0 <= i < |candidates| ==> !Matches(columns, candidates[i])
    ensures FirstExisting(columns, candidates).Some? ==>
              var name := FirstExisting(columns, candidates).value;
              && name in columns
              && (exists i :: 0 <= i < |candidates| && Lower(candidates[i]) == Lower(name) &&
                    forall i' :: 0 <= i' < i ==> !Matches(columns, candidates[i']))
              && (exists j :: 0 <= j < |columns| && columns[j] == name &&
                    forall j' :: j < j' < |columns| ==> Lower(columns[j']) != Lower(name))
    decreases |candidates|
  {
    if candidates != [] {
      var colsLower := LowerMap(columns);
      var key := Lower(candidates[0]);
      LowerMapSpec(columns);
      if key in colsLower {
        var name := colsLower[key];
        var j :| LastWithKey(columns, key, j) && columns[j] == name;
        assert Lower(candidates[0]) == Lower(name);
      } else {
        assert !Matches(columns, candidates[0]);
        FirstExistingSpec(columns, candidates[1..]);
        var r := FirstExisting(columns, candidates[1..]);
        if r.Some? {
          var i :| 0 <= i < |candidates[1..]| && Lower(candidates[1..][i]) == Lower(r.value) &&
                   forall i' :: 0 <= i' < i ==> !Matches(columns, candidates[1..][i']);
          assert Lower(candidates[i + 1]) == Lower(r.value);
          assert forall i' :: 0 <= i' < i + 1 ==> !Matches(columns, candidates[i']) by {
            forall i' | 0 < i' < i + 1 ensures !Matches(columns, candidates[i']) {
              assert candidates[i'] == candidates[1..][i' - 1];
            }
          }
        } else {
          assert forall i :: 0 < i < |candidates| ==> candidates[i] == candidates[1..][i - 1];
        }
      }
    }
  }

  /**
   * When two distinct columns differ only by case, the earlier one is never
   * returned: the comprehension let the later one overwrite it.
   */
  lemma LaterCaseVariantWins(columns: seq<string>, candidates: seq<string>, i: nat, j: nat)
    requires forall a, b :: 0 <= a < b < |columns| ==> columns[a] != columns[b]
    requires i < j < |columns| && Lower(columns[i]) == Lower(columns[j])
    ensures FirstExisting(columns, candidates) != Some(columns[i])
  {
    FirstExistingSpec(columns, candidates);
  }

  /** A found name is as long as the candidate it matched, so never empty here. */
  lemma FirstExistingNonEmpty(columns: seq<string>, candidates: seq<string>)
    requires forall i :: 0 <= i < |candidates| ==> candidates[i] != ""
    ensures FirstExisting(columns, candidates).Some? ==> FirstExisting(columns, candidates).value != ""
  {
    FirstExistingSpec(columns, candidates);
  }

  /** find_first_existing_column: build the lowered map, then scan the candidates. */
  method FindFirstExistingColumn(columns: seq<string>, candidates: seq<string>) returns (r: Option<string>)
    ensures r == FirstExisting(columns, candidates)
  {
    var colsLower := LowerMap(columns);
    for k := 0 to |candidates|
      invariant FirstExisting(columns, candidates) == FirstExisting(columns, candidates[k..])
    {
      assert candidates[k..][1..] == candidates[k + 1..];
      var cand := Lower(candidates[k]);
      if cand in colsLower {
        return Some(colsLower[cand]);
      }
    }
    return None;
  }
}

/**
 * df.groupby(group_col, dropna=False)[value_col].sum(), sorted by the sums
 * in descending order and, for the summary, cut to the first 25 groups.
 */
module Grouping {
  import opened Wrappers
  import opened Frame

  /** One row of the aggregated table: a group key and the sum of its values. */
  datatype Group = Group(key: Cell, total: int)

  /** What a numeric cell adds to a sum: its number, or nothing when empty. */
  function ValueOf(c: Cell): int {
    if c.Num? then c.n else 0
  }

  /** Row has cells at positions g and v. */
  predicate HasCells(rows: seq<seq<Cell>>, g: nat, v: nat) {
    forall i :: 0 <= i < |rows| ==> g < |rows[i]| && v < |rows[i]|
  }

  /** The sum of column v over the rows whose column g is key (an empty key is a key too). */
  function SumWhere(rows: seq<seq<Cell>>, g: nat, v: nat, key: Cell): int
    requires HasCells(rows, g, v)
  {
    if rows == [] then 0
    else
      var last := rows[|rows| - 1];
      SumWhere(rows[..|rows| - 1], g, v, key) + (if last[g] == key then ValueOf(last[v]) else 0)
  }

  /** df[value_col].sum(): the sum of column v over all rows. */
  function ColumnSum(rows: seq<seq<Cell>>, v: nat): int
    requires forall i :: 0 <= i < |rows| ==> v < |rows[i]|
  {
    if rows == [] then 0 else ColumnSum(rows[..|rows| - 1], v) + ValueOf(rows[|rows| - 1][v])
  }

  predicate HasKey(gs: seq<Group>, key: Cell) {
    exists i :: 0 <= i < |gs| && gs[i].key == key
  }

  predicate DistinctKeys(gs: seq<Group>) {
    forall i, j :: 0 <= i < j < |gs| ==> gs[i].key != gs[j].key
  }

  /** The sum recorded for key, 0 when key is absent. */
  function TotalOf(gs: seq<Group>, key: Cell): int {
    if gs == [] then 0 else (if gs[0].key == key then gs[0].total else 0) + TotalOf(gs[1..], key)
  }

  /** The sum of all recorded sums. */
  function Totals(gs: seq<Group>): int {
    if gs == [] then 0 else gs[0].total + Totals(gs[1..])
  }

  /** With distinct keys, the sum recorded for a present key is that entry's. */
  lemma {:induction false} TotalOfEntry(gs: seq<Group>, i: nat)
    requires DistinctKeys(gs) && i < |gs|
    ensures TotalOf(gs, gs[i].key) == gs[i].total
  {
    if i == 0 {
      TotalOfAbsent(gs[1..], gs[0].key);
    } else {
      TotalOfEntry(gs[1..], i - 1);
    }
  }

  lemma {:induction false} TotalOfAbsent(gs: seq<Group>, key: Cell)
    requires !HasKey(gs, key)
    ensures TotalOf(gs, key) == 0
  {
    if gs != [] {
      assert !HasKey(gs[1..], key) by {
        forall i | 0 <= i < |gs[1..]| ensures gs[1..][i].key != key {
          assert gs[1..][i] == gs[i + 1];
        }
      }
      TotalOfAbsent(gs[1..], key);
    }
  }

  /** A list headed by a has key exactly when a has it or the rest does. */
  lemma HasKeyCons(a: Group, s: seq<Group>, k: Cell)
    ensures HasKey([a] + s, k) <==> a.key == k || HasKey(s, k)
  {
    var r := [a] + s;
    if HasKey(s, k) {
      var i :| 0 <= i < |s| && s[i].key == k;
      assert r[i + 1] == s[i];
    }
    if a.key == k {
      assert r[0] == a;
    }
    if HasKey(r, k) && a.key != k {
      var i :| 0 <= i < |r| && r[i].key == k;
      assert i > 0 && r[i] == s[i - 1];
    }
  }

  /** Add x to key's sum, appending the key when it is new. */
  function AddTo(gs: seq<Group>, key: Cell, x: int): (r: seq<Group>)
    requires DistinctKeys(gs)
    ensures DistinctKeys(r)
    ensures forall k :: HasKey(r, k) <==> HasKey(gs, k) || k == key
    ensures forall k :: TotalOf(r, k) == TotalOf(gs, k) + (if k == key then x else 0)
    ensures Totals(r) == Totals(gs) + x
  {
    if gs == [] then
      var r := [Group(key, x)];
      assert forall k :: HasKey(r, k) <==> k == key by {
        forall k ensures HasKey(r, k) <==> k == key {
          HasKeyCons(Group(key, x), [], k);
          assert r == [Group(key, x)] + [];
        }
      }
      r
    else
      var head := gs[0];
      var tail := gs[1..];
      assert gs == [head] + tail;
      DistinctKeysTail(gs);
      if head.key == key then
        var r := [Group(key, head.total + x)] + tail;
        assert r[1..] == tail;
        assert forall k :: HasKey(r, k) <==> HasKey(gs, k) by {
          forall k ensures HasKey(r, k) <==> HasKey(gs, k) {
            HasKeyCons(Group(key, head.total + x), tail, k);
            HasKeyCons(head, tail, k);
          }
        }
        assert DistinctKeys(r) by {
          forall i | 0 < i < |r| ensures r[0].key != r[i].key {
            assert r[i] == tail[i - 1];
          }
          forall a, b | 0 < a < b < |r| ensures r[a].key != r[b].key {
            assert r[a] == gs[a] && r[b] == gs[b];
          }
        }
        r
      else
        var rest := AddTo(tail, key, x);
        var r := [head] + rest;
        assert r[1..] == rest;
        assert forall k :: HasKey(r, k) <==> HasKey(gs, k) || k == key by {
          forall k ensures HasKey(r, k) <==> HasKey(gs, k) || k == key {
            HasKeyCons(head, rest, k);
            HasKeyCons(head, tail, k);
          }
        }
        assert DistinctKeys(r) by {
          forall i | 0 < i < |r| ensures r[0].key != r[i].key {
            assert rest[i - 1] == r[i];
            assert HasKey(rest, r[i].key);
          }
          forall a, b | 0 < a < b < |r| ensures r[a].key != r[b].key {
            assert r[a] == rest[a - 1] && r[b] == rest[b - 1];
          }
        }
        r
  }

  /**
   * groupby(...).sum(): one entry per distinct key of column g (an empty
   * cell forms its own group), holding the sum of column v over its rows.
   */
  function GroupSum(rows: seq<seq<Cell>>, g: nat, v: nat): (r: seq<Group>)
    requires HasCells(rows, g, v)
    ensures DistinctKeys(r)
    ensures forall k :: HasKey(r, k) <==> exists i :: 0 <= i < |rows| && rows[i][g] == k
    ensures forall k :: TotalOf(r, k) == SumWhere(rows, g, v, k)
    ensures Totals(r) == ColumnSum(rows, v)
  {
    if rows == [] then []
    else
      var init := rows[..|rows| - 1];
      var last := rows[|rows| - 1];
      var r := AddTo(GroupSum(init, g, v), last[g], ValueOf(last[v]));
      assert forall i :: 0 <= i < |init| ==> init[i] == rows[i];
      r
  }

  predicate NonIncreasing(gs: seq<Group>) {
    forall i, j :: 0 <= i < j < |gs| ==> gs[j].total <= gs[i].total
  }

  /** Insert x before the first entry whose sum is not larger. */
  function Insert(x: Group, s: seq<Group>): seq<Group> {
    if s == [] || x.total >= s[0].total then [x] + s else [s[0]] + Insert(x, s[1..])
  }

  /** Insertion adds x to the entries and nothing else. */
  lemma {:induction false} InsertElements(x: Group, s: seq<Group>)
    ensures multiset(Insert(x, s)) == multiset(s) + multiset{x}
    ensures Totals(Insert(x, s)) == Totals(s) + x.total
  {
    if s != [] && x.total < s[0].total {
      InsertElements(x, s[1..]);
      assert s == [s[0]] + s[1..];
      assert Insert(x, s)[1..] == Insert(x, s[1..]);
    }
  }

  /** Inserting an entry no larger than b into entries no larger than b keeps them so. */
  lemma {:induction false} InsertBound(x: Group, s: seq<Group>, b: int)
    requires x.total <= b && forall i :: 0 <= i < |s| ==> s[i].total <= b
    ensures forall i :: 0 <= i < |Insert(x, s)| ==> Insert(x, s)[i].total <= b
  {
    if s != [] && x.total < s[0].total {
      InsertBound(x, s[1..], b);
      var r := Insert(x, s);
      assert r == [s[0]] + Insert(x, s[1..]);
    }
  }

  /** Inserting into a list sorted largest first keeps it sorted. */
  lemma {:induction false} InsertSorted(x: Group, s: seq<Group>)
    requires NonIncreasing(s)
    ensures NonIncreasing(Insert(x, s))
  {
    if s != [] && x.total < s[0].total {
      var tail := s[1..];
      assert NonIncreasing(tail) by {
        forall i, j | 0 <= i < j < |tail| ensures tail[j].total <= tail[i].total {
          assert tail[i] == s[i + 1] && tail[j] == s[j + 1];
        }
      }
      InsertSorted(x, tail);
      assert forall i :: 0 <= i < |tail| ==> tail[i].total <= s[0].total by {
        forall i | 0 <= i < |tail| ensures tail[i].total <= s[0].total {
          assert tail[i] == s[i + 1];
        }
      }
      InsertBound(x, tail, s[0].total);
      var rest := Insert(x, tail);
      var r := Insert(x, s);
      assert r == [s[0]] + rest;
      forall i, j | 0 <= i < j < |r| ensures r[j].total <= r[i].total {
        assert r[j] == rest[j - 1];
        if i > 0 {
          assert r[i] == rest[i - 1];
        }
      }
    } else if s != [] {
      var r := Insert(x, s);
      assert r == [x] + s;
      forall i, j | 0 <= i < j < |r| ensures r[j].total <= r[i].total {
        assert r[j] == s[j - 1];
        if i > 0 {
          assert r[i] == s[i - 1];
        }
      }
    }
  }

  /** A sort by sum, largest first (sort_values(ascending=False)). */
  function SortDesc(s: seq<Group>): seq<Group> {
    if s == [] then [] else Insert(s[0], SortDesc(s[1..]))
  }

  /**
   * The sorted list is ordered by sum, largest first, and is a permutation
   * of the input with the same grand total.
   */
  lemma {:induction false} SortDescSpec(s: seq<Group>)
    ensures NonIncreasing(SortDesc(s))
    ensures multiset(SortDesc(s)) == multiset(s)
    ensures Totals(SortDesc(s)) == Totals(s)
  {
    if s != [] {
      SortDescSpec(s[1..]);
      InsertSorted(s[0], SortDesc(s[1..]));
      InsertElements(s[0], SortDesc(s[1..]));
      assert s == [s[0]] + s[1..];
    }
  }

  lemma DistinctKeysTail(s: seq<Group>)
    requires s != [] && DistinctKeys(s)
    ensures DistinctKeys(s[1..]) && !HasKey(s[1..], s[0].key)
  {
    forall a, b | 0 <= a < b < |s[1..]| ensures s[1..][a].key != s[1..][b].key {
      assert s[1..][a] == s[a + 1] && s[1..][b] == s[b + 1];
    }
    forall i | 0 <= i < |s[1..]| ensures s[1..][i].key != s[0].key {
      assert s[1..][i] == s[i + 1];
    }
  }

  /** An entry of a permutation is an entry of the original. */
  lemma PermutationEntry(a: seq<Group>, b: seq<Group>, i: nat)
    requires multiset(a) == multiset(b) && i < |a|
    ensures exists m :: 0 <= m < |b| && b[m] == a[i]
  {
    assert a[i] in multiset(b);
  }

  /** Each entry after insertion is x or an entry of s. */
  lemma InsertMember(x: Group, s: seq<Group>, i: nat)
    requires i < |Insert(x, s)|
    ensures Insert(x, s)[i] == x || exists m :: 0 <= m < |s| && s[m] == Insert(x, s)[i]
  {
    InsertElements(x, s);
    var r := Insert(x, s);
    assert r[i] in multiset(r);
  }

  /** Inserting an entry with a new key keeps the keys distinct. */
  lemma {:induction false} InsertDistinct(x: Group, s: seq<Group>)
    requires DistinctKeys(s) && !HasKey(s, x.key)
    ensures DistinctKeys(Insert(x, s))
  {
    if s != [] && x.total < s[0].total {
      DistinctKeysTail(s);
      var tail := s[1..];
      assert !HasKey(tail, x.key) by {
        forall i | 0 <= i < |tail| ensures tail[i].key != x.key {
          assert tail[i] == s[i + 1];
        }
      }
      InsertDistinct(x, tail);
      var rest := Insert(x, tail);
      var r := Insert(x, s);
      assert r == [s[0]] + rest;
      forall i | 0 < i < |r| ensures r[0].key != r[i].key {
        assert r[i] == rest[i - 1];
        InsertMember(x, tail, i - 1);
      }
      forall a, b | 0 < a < b < |r| ensures r[a].key != r[b].key {
        assert r[a] == rest[a - 1] && r[b] == rest[b - 1];
      }
    }
  }

  /** Sorting entries with distinct keys keeps the keys distinct. */
  lemma {:induction false} SortDescDistinct(s: seq<Group>)
    requires DistinctKeys(s)
    ensures DistinctKeys(SortDesc(s))
  {
    if s != [] {
      DistinctKeysTail(s);
      SortDescDistinct(s[1..]);
      SortDescSpec(s[1..]);
      var sorted := SortDesc(s[1..]);
      assert !HasKey(sorted, s[0].key) by {
        forall i | 0 <= i < |sorted| ensures sorted[i].key != s[0].key {
          PermutationEntry(sorted, s[1..], i);
        }
      }
      InsertDistinct(s[0], sorted);
    }
  }

  /** .head(n): the first n entries, or all of them when there are fewer. */
  function Head(gs: seq<Group>, n: nat): seq<Group> {
    if |gs| <= n then gs else gs[..n]
  }

  datatype AggError =
    | ColumnNotFound(name: string)  // KeyError from groupby or the column selection
    | Ambiguous(name: string)       // reset_index: the value column's name is already the index name

  /**
   * The groupby/sum/sort/head chain on named columns; topN None is the
   * breakdown (no head), Some(n) the summary (head(n)).
   */
  function Aggregate(t: Table, groupCol: string, valueCol: string, topN: Option<nat>): Result<seq<Group>, AggError>
    requires Shaped(t)
  {
    if groupCol !in t.columns then Failure(ColumnNotFound(groupCol))
    else if valueCol !in t.columns then Failure(ColumnNotFound(valueCol))
    else if groupCol == valueCol then Failure(Ambiguous(valueCol))
    else
      var sorted := SortDesc(GroupSum(t.rows, IndexOf(t.columns, groupCol), IndexOf(t.columns, valueCol)));
      match topN
      case None => Success(sorted)
      case Some(n) => Success(Head(sorted, n))
  }

  /** Each sorted entry carries the sum of the value column over its group. */
  lemma SortedGroupsSums(rows: seq<seq<Cell>>, g: nat, v: nat)
    requires HasCells(rows, g, v)
    ensures var r := SortDesc(GroupSum(rows, g, v));
      && (forall i :: 0 <= i < |r| ==> r[i].total == SumWhere(rows, g, v, r[i].key))
      && (forall i :: 0 <= i < |r| ==> exists row :: 0 <= row < |rows| && rows[row][g] == r[i].key)
  {
    var groups := GroupSum(rows, g, v);
    var r := SortDesc(groups);
    SortDescSpec(groups);
    forall i | 0 <= i < |r|
      ensures r[i].total == SumWhere(rows, g, v, r[i].key)
      ensures exists row :: 0 <= row < |rows| && rows[row][g] == r[i].key
    {
      PermutationEntry(r, groups, i);
      var m :| 0 <= m < |groups| && groups[m] == r[i];
      TotalOfEntry(groups, m);
      assert HasKey(groups, groups[m].key);
    }
  }

  /** Every value of the group column, the empty cell included, has a sorted entry. */
  lemma SortedGroupsCover(rows: seq<seq<Cell>>, g: nat, v: nat)
    requires HasCells(rows, g, v)
    ensures forall row :: 0 <= row < |rows| ==> HasKey(SortDesc(GroupSum(rows, g, v)), rows[row][g])
  {
    var groups := GroupSum(rows, g, v);
    var r := SortDesc(groups);
    SortDescSpec(groups);
    forall row | 0 <= row < |rows| ensures HasKey(r, rows[row][g]) {
      assert HasKey(groups, rows[row][g]);
      var m :| 0 <= m < |groups| && groups[m].key == rows[row][g];
      PermutationEntry(groups, r, m);
    }
  }

  /**
   * The grouped and sorted entries, before any head: distinct keys, largest
   * sum first, one entry per value of the group column with the sum of the
   * value column over its rows, and the sums add up to the column's total.
   */
  lemma SortedGroupsSpec(rows: seq<seq<Cell>>, g: nat, v: nat)
    requires HasCells(rows, g, v)
    ensures var r := SortDesc(GroupSum(rows, g, v));
      && DistinctKeys(r)
      && NonIncreasing(r)
      && (forall i :: 0 <= i < |r| ==> r[i].total == SumWhere(rows, g, v, r[i].key))
      && (forall i :: 0 <= i < |r| ==> exists row :: 0 <= row < |rows| && rows[row][g] == r[i].key)
      && (forall row :: 0 <= row < |rows| ==> HasKey(r, rows[row][g]))
      && Totals(r) == ColumnSum(rows, v)
  {
    var groups := GroupSum(rows, g, v);
    SortDescSpec(groups);
    SortDescDistinct(groups);
    SortedGroupsSums(rows, g, v);
    SortedGroupsCover(rows, g, v);
  }

  /**
   * The chain succeeds exactly when both columns exist and differ; a missing
   * column is reported by name, the group column first, and a value column
   * that is also the group column fails at reset_index.
   */
  lemma AggregateErrors(t: Table, groupCol: string, valueCol: string, topN: Option<nat>)
    requires Shaped(t)
    ensures Aggregate(t, groupCol, valueCol, topN).Success? <==>
              groupCol in t.columns && valueCol in t.columns && groupCol != valueCol
    ensures groupCol !in t.columns ==> Aggregate(t, groupCol, valueCol, topN) == Failure(ColumnNotFound(groupCol))
    ensures groupCol in t.columns && valueCol !in t.columns ==>
              Aggregate(t, groupCol, valueCol, topN) == Failure(ColumnNotFound(valueCol))
    ensures groupCol in t.columns && groupCol == valueCol ==>
              Aggregate(t, groupCol, valueCol, topN) == Failure(Ambiguous(valueCol))
  {
  }

  /**
   * What a successful aggregation shows: each group once, largest sum first,
   * every entry a value of the group column with the sum of the value column
   * over its rows.  Without a limit every group is there and the sums add up
   * to the column's total; with head(n) at most n groups are shown, and a
   * group left out is only ever one with n shown groups each summing to at
   * least as much.
   */
  lemma AggregateSpec(t: Table, groupCol: string, valueCol: string, topN: Option<nat>)
    requires Shaped(t)
    requires groupCol in t.columns && valueCol in t.columns && groupCol != valueCol
    ensures Aggregate(t, groupCol, valueCol, topN).Success?
    ensures var r := Aggregate(t, groupCol, valueCol, topN).value;
      var g := IndexOf(t.columns, groupCol);
      var v := IndexOf(t.columns, valueCol);
      && DistinctKeys(r)
      && NonIncreasing(r)
      && (forall i :: 0 <= i < |r| ==> r[i].total == SumWhere(t.rows, g, v, r[i].key))
      && (forall i :: 0 <= i < |r| ==> exists row :: 0 <= row < |t.rows| && t.rows[row][g] == r[i].key)
      && (topN.None? ==> (forall row :: 0 <= row < |t.rows| ==> HasKey(r, t.rows[row][g])))
      && (topN.None? ==> Totals(r) == ColumnSum(t.rows, v))
      && (topN.Some? ==> |r| <= topN.value)
      && (topN.Some? ==> forall row :: 0 <= row < |t.rows| && !HasKey(r, t.rows[row][g]) ==>
            |r| == topN.value && forall i :: 0 <= i < |r| ==> SumWhere(t.rows, g, v, t.rows[row][g]) <= r[i].total)
  {
    var g := IndexOf(t.columns, groupCol);
    var v := IndexOf(t.columns, valueCol);
    var sorted := SortDesc(GroupSum(t.rows, g, v));
    assert Aggregate(t, groupCol, valueCol, topN).value == if topN.None? then sorted else Head(sorted, topN.value);
    if topN.None? {
      SortedGroupsSpec(t.rows, g, v);
    } else {
      TopGroupsSpec(t.rows, g, v, topN.value);
    }
  }

  /** The first n sorted groups, as the summary's head(n) shows them. */
  lemma TopGroupsSpec(rows: seq<seq<Cell>>, g: nat, v: nat, n: nat)
    requires HasCells(rows, g, v)
    ensures var r := Head(SortDesc(GroupSum(rows, g, v)), n);
      && |r| <= n && DistinctKeys(r) && NonIncreasing(r)
      && (forall i :: 0 <= i < |r| ==> r[i].total == SumWhere(rows, g, v, r[i].key))
      && (forall i :: 0 <= i < |r| ==> exists row :: 0 <= row < |rows| && rows[row][g] == r[i].key)
      && (forall row :: 0 <= row < |rows| && !HasKey(r, rows[row][g]) ==>
            |r| == n && forall i :: 0 <= i < |r| ==> SumWhere(rows, g, v, rows[row][g]) <= r[i].total)
  {
    var sorted := SortDesc(GroupSum(rows, g, v));
    SortedGroupsSpec(rows, g, v);
    HeadSpec(sorted, n);
    TopGroupsDropped(rows, g, v, n);
  }

  /** A group head(n) leaves out sums to no more than any of the n it shows. */
  lemma TopGroupsDropped(rows: seq<seq<Cell>>, g: nat, v: nat, n: nat)
    requires HasCells(rows, g, v)
    ensures var r := Head(SortDesc(GroupSum(rows, g, v)), n);
      forall row :: 0 <= row < |rows| && !HasKey(r, rows[row][g]) ==>
        |r| == n && forall i :: 0 <= i < |r| ==> SumWhere(rows, g, v, rows[row][g]) <= r[i].total
  {
    forall row | 0 <= row < |rows| && !HasKey(Head(SortDesc(GroupSum(rows, g, v)), n), rows[row][g]) {
      TopGroupDroppedAt(rows, g, v, n, row);
    }
  }

  lemma TopGroupDroppedAt(rows: seq<seq<Cell>>, g: nat, v: nat, n: nat, row: nat)
    requires HasCells(rows, g, v) && row < |rows|
    requires !HasKey(Head(SortDesc(GroupSum(rows, g, v)), n), rows[row][g])
    ensures var r := Head(SortDesc(GroupSum(rows, g, v)), n);
      |r| == n && forall i :: 0 <= i < |r| ==> SumWhere(rows, g, v, rows[row][g]) <= r[i].total
  {
    var groups := GroupSum(rows, g, v);
    var sorted := SortDesc(groups);
    SortDescSpec(groups);
    var k := rows[row][g];
    assert HasKey(groups, k);
    var m :| 0 <= m < |groups| && groups[m].key == k;
    PermutationEntry(groups, sorted, m);
    var p :| 0 <= p < |sorted| && sorted[p] == groups[m];
    TotalOfEntry(groups, m);
    HeadDropped(sorted, n, p);
  }

  /**
   * head(n) of a list with distinct keys sorted largest first: at most n
   * entries, still distinct and sorted, each the entry at that position; a
   * key left out means n entries were kept, each at least as large.
   */
  lemma HeadSpec(s: seq<Group>, n: nat)
    requires DistinctKeys(s) && NonIncreasing(s)
    ensures |Head(s, n)| <= n && DistinctKeys(Head(s, n)) && NonIncreasing(Head(s, n))
    ensures forall i :: 0 <= i < |Head(s, n)| ==> Head(s, n)[i] == s[i]
    ensures forall p :: 0 <= p < |s| && !HasKey(Head(s, n), s[p].key) ==>
              |Head(s, n)| == n && forall i :: 0 <= i < n ==> s[p].total <= Head(s, n)[i].total
  {
    forall p | 0 <= p < |s| && !HasKey(Head(s, n), s[p].key) {
      HeadDropped(s, n, p);
    }
  }

  /** An entry head(n) leaves out of a sorted list is no larger than any kept one. */
  lemma HeadDropped(s: seq<Group>, n: nat, p: nat)
    requires NonIncreasing(s) && p < |s| && !HasKey(Head(s, n), s[p].key)
    ensures |Head(s, n)| == n && forall i :: 0 <= i < n ==> s[p].total <= Head(s, n)[i].total
  {
    var r := Head(s, n);
    assert p < |r| ==> r[p] == s[p] && HasKey(r, s[p].key);
  }

  /** A prefix of a sorted list with distinct keys is both too. */
  lemma PrefixKeepsOrder(s: seq<Group>, n: nat)
    requires n <= |s| && DistinctKeys(s) && NonIncreasing(s)
    ensures DistinctKeys(s[..n]) && NonIncreasing(s[..n])
  {
  }
}

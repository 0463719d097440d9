/** `execute_sql` without the database: the outcome of connect, execute and fetch comes in
    as a value, and what is modelled is how rows are shaped into dictionaries and how the
    result dictionary is built. */
module Execution {
  import opened Wrappers

  /** A Python dict with string keys: its entries in insertion order, no key twice. */
  type Dict<V> = seq<(string, V)>

  function Keys<V>(d: seq<(string, V)>): (ks: seq<string>)
    ensures |ks| == |d| && forall i :: 0 <= i < |d| ==> ks[i] == d[i].0
  {
    if d == [] then [] else [d[0].0] + Keys(d[1..])
  }

  predicate DistinctKeys<V>(d: seq<(string, V)>) {
    forall i, j :: 0 <= i < j < |d| ==> d[i].0 != d[j].0
  }

  /** `d.get(k)`. */
  function Get<V>(d: Dict<V>, k: string): (r: Option<V>)
    ensures r.None? <==> k !in Keys(d)
    ensures r.Some? ==> (k, r.value) in d
  {
    if d == [] then None
    else if d[0].0 == k then Some(d[0].1)
    else Get(d[1..], k)
  }

  /** With no key twice, the entry holding `k` is what `d.get(k)` returns. */
  lemma {:induction false} GetEntry<V>(d: Dict<V>, i: nat)
    requires DistinctKeys(d) && i < |d|
    ensures Get(d, d[i].0) == Some(d[i].1)
    decreases |d|
  {
    if i > 0 {
      assert d[0].0 != d[i].0;
      assert d[1..][i - 1] == d[i];
      GetEntry(d[1..], i - 1);
    }
  }

  /** `d[k] = v`: an existing key keeps its place and takes the new value; a new key goes
      last. */
  function Put<V>(d: Dict<V>, k: string, v: V): (r: Dict<V>)
    requires DistinctKeys(d)
    ensures DistinctKeys(r)
    ensures Keys(r) == if k in Keys(d) then Keys(d) else Keys(d) + [k]
  {
    if d == [] then [(k, v)]
    else if d[0].0 == k then
      assert Keys([(k, v)] + d[1..]) == Keys(d) by {
        assert Keys([(k, v)] + d[1..])[0] == k;
      }
      [(k, v)] + d[1..]
    else
      assert DistinctKeys(d[1..]);
      var r := [d[0]] + Put(d[1..], k, v);
      assert Keys(r) == [d[0].0] + Keys(Put(d[1..], k, v));
      assert Keys(d) == [d[0].0] + Keys(d[1..]);
      r
  }

  /** After `d[k] = v`, `k` reads back `v` and every other key reads as before. */
  lemma {:induction false} PutGet<V>(d: Dict<V>, k: string, v: V, k': string)
    requires DistinctKeys(d)
    ensures Get(Put(d, k, v), k') == if k' == k then Some(v) else Get(d, k')
    decreases |d|
  {
    if d != [] && d[0].0 != k {
      assert DistinctKeys(d[1..]);
      PutGet(d[1..], k, v, k');
    }
  }

  /** `dict(pairs)`: the pairs stored one after another. */
  function DictOf<V>(pairs: seq<(string, V)>): (d: Dict<V>)
    ensures DistinctKeys(d)
    ensures |d| <= |pairs|
  {
    if pairs == [] then []
    else
      var last := pairs[|pairs| - 1];
      Put(DictOf(pairs[..|pairs| - 1]), last.0, last.1)
  }

  /** A key of no pair is absent from `dict(pairs)`. */
  lemma {:induction false} DictOfAbsent<V>(pairs: seq<(string, V)>, k: string)
    requires forall j :: 0 <= j < |pairs| ==> pairs[j].0 != k
    ensures Get(DictOf(pairs), k) == None
    decreases |pairs|
  {
    if pairs != [] {
      var n := |pairs| - 1;
      DictOfAbsent(pairs[..n], k);
      PutGet(DictOf(pairs[..n]), pairs[n].0, pairs[n].1, k);
    }
  }

  /** In `dict(pairs)` a key is bound to the value of its last pair. */
  lemma {:induction false} DictOfLast<V>(pairs: seq<(string, V)>, k: string, j: nat)
    requires j < |pairs| && pairs[j].0 == k
    requires forall j' :: j < j' < |pairs| ==> pairs[j'].0 != k
    ensures Get(DictOf(pairs), k) == Some(pairs[j].1)
    decreases |pairs|
  {
    var n := |pairs| - 1;
    var prefix := pairs[..n];
    var last := pairs[n];
    assert pairs[..|pairs| - 1] == prefix;
    var before := DictOf(prefix);
    assert DictOf(pairs) == Put(before, last.0, last.1);
    PutGet(before, last.0, last.1, k);
    if j < n {
      assert prefix[j] == pairs[j];
      assert forall j' :: j < j' < |prefix| ==> prefix[j'].0 != k by {
        forall j' | j < j' < |prefix| ensures prefix[j'].0 != k {
          assert prefix[j'] == pairs[j'];
        }
      }
      DictOfLast(prefix, k, j);
    }
  }

  /** The index of the first occurrence of `k` in `ks`. */
  function FirstIndex(ks: seq<string>, k: string): (a: nat)
    requires k in ks
    ensures a < |ks| && ks[a] == k && k !in ks[..a]
  {
    if ks[0] == k then 0 else 1 + FirstIndex(ks[1..], k)
  }

  /** A key of a prefix first occurs where it first occurs in the prefix. */
  lemma FirstIndexPrefix(ks: seq<string>, n: nat, k: string)
    requires n <= |ks| && k in ks[..n]
    ensures FirstIndex(ks, k) == FirstIndex(ks[..n], k)
  {
    var a := FirstIndex(ks[..n], k);
    var b := FirstIndex(ks, k);
    assert ks[..n][..a] == ks[..a];
    assert forall i :: 0 <= i < a ==> ks[..a][i] == ks[i];
    assert forall i :: 0 <= i < b ==> ks[..b][i] == ks[i];
  }

  /** The keys of `ks` with repeats dropped, each where it first occurs: the keys of `ks`,
      once each, in order of first occurrence. */
  function Dedup(ks: seq<string>): (r: seq<string>)
    ensures forall k :: k in r <==> k in ks
    ensures forall i, j :: 0 <= i < j < |r| ==> r[i] != r[j]
    ensures forall i, j :: 0 <= i < j < |r| ==> FirstIndex(ks, r[i]) < FirstIndex(ks, r[j])
  {
    if ks == [] then []
    else
      var n := |ks| - 1;
      var r := Dedup(ks[..n]);
      var k := ks[n];
      assert ks == ks[..n] + [k];
      forall x | x in r ensures FirstIndex(ks, x) == FirstIndex(ks[..n], x) < n {
        FirstIndexPrefix(ks, n, x);
      }
      if k in r then r
      else
        assert FirstIndex(ks, k) == n by {
          assert forall i :: 0 <= i < n ==> ks[..n][i] == ks[i];
        }
        r + [k]
  }

  /** The keys of `dict(pairs)` are in first-insertion order. */
  lemma {:induction false} DictOfKeys<V>(pairs: seq<(string, V)>)
    ensures Keys(DictOf(pairs)) == Dedup(Keys(pairs))
    decreases |pairs|
  {
    if pairs != [] {
      var n := |pairs| - 1;
      DictOfKeys(pairs[..n]);
      assert Keys(pairs[..n]) == Keys(pairs)[..n];
    }
  }

  function Min(a: nat, b: nat): nat {
    if a < b then a else b
  }

  /** `zip(columns, row)`: pairs up to the shorter of the two. */
  function Zip<V>(columns: seq<string>, row: seq<V>): seq<(string, V)> {
    seq(Min(|columns|, |row|), j requires 0 <= j < Min(|columns|, |row|) => (columns[j], row[j]))
  }

  /** `dict(zip(columns, row))`: no name twice, and no more entries than the shorter of
      columns and row. */
  function RowDict<V>(columns: seq<string>, row: seq<V>): (d: Dict<V>)
    ensures DistinctKeys(d)
    ensures |d| <= |columns| && |d| <= |row|
  {
    DictOf(Zip(columns, row))
  }

  /** In a row's dictionary a column name is bound to the cell under its last occurrence
      among the first min(|columns|, |row|) columns. */
  lemma RowDictCell<V>(columns: seq<string>, row: seq<V>, j: nat)
    requires j < |columns| && j < |row|
    requires forall j' :: j < j' < Min(|columns|, |row|) ==> columns[j'] != columns[j]
    ensures Get(RowDict(columns, row), columns[j]) == Some(row[j])
  {
    DictOfLast(Zip(columns, row), columns[j], j);
  }

  /** A name that is not among the first min(|columns|, |row|) columns is absent. */
  lemma RowDictAbsent<V>(columns: seq<string>, row: seq<V>, k: string)
    requires forall j :: 0 <= j < Min(|columns|, |row|) ==> columns[j] != k
    ensures Get(RowDict(columns, row), k) == None
  {
    DictOfAbsent(Zip(columns, row), k);
  }

  /** The keys of a row's dictionary follow the column order, each at its first occurrence,
      and stop where the shorter of columns and row stops. */
  lemma RowDictKeys<V>(columns: seq<string>, row: seq<V>)
    ensures Keys(RowDict(columns, row)) == Dedup(columns[..Min(|columns|, |row|)])
  {
    var pairs := Zip(columns, row);
    DictOfKeys(pairs);
    assert Keys(pairs) == columns[..Min(|columns|, |row|)];
  }

  /** `[dict(zip(columns, row)) for row in rows]`: one dictionary per row, in cursor order. */
  function ShapeRows<V>(columns: seq<string>, rows: seq<seq<V>>): (results: seq<Dict<V>>)
    ensures |results| == |rows|
    ensures forall i :: 0 <= i < |rows| ==> results[i] == RowDict(columns, rows[i])
  {
    seq(|rows|, i requires 0 <= i < |rows| => RowDict(columns, rows[i]))
  }

  /** What the calls inside the `try` produced (connect, execute, fetchall, reading
      `cursor.description`, and closing the cursor and the connection): the column names
      and the rows when none of them raised, or the text of the exception one raised. */
  datatype DbOutcome<V> = Fetched(columns: seq<string>, rows: seq<seq<V>>) | Raised(message: string)

  /** The dictionary `execute_sql` returns: status "success" with "sql" and "results", or
      status "error" with "sql" and "error_message". */
  datatype ExecutionResult<V> =
    | Success(sql: string, results: seq<Dict<V>>)
    | Failure(sql: string, errorMessage: string)
  {
    function Status(): (s: string)
      ensures s == "success" || s == "error"
      ensures (s == "success") == Success?
    {
      if Success? then "success" else "error"
    }
  }

  /** Never raises: every exception becomes the error result. The statement is echoed back
      unmodified in both cases. */
  function ExecuteSql<V>(sql: string, outcome: DbOutcome<V>): (r: ExecutionResult<V>)
    ensures r.sql == sql
    ensures r.Success? <==> outcome.Fetched?
    ensures r.Success? ==> r.results == ShapeRows(outcome.columns, outcome.rows)
    ensures r.Failure? ==> r.errorMessage == outcome.message
  {
    match outcome
    case Fetched(columns, rows) => Success(sql, ShapeRows(columns, rows))
    case Raised(message) => Failure(sql, message)
  }
}

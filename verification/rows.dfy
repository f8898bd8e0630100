/**
 Result rows, the three delta operations, and what a client does with a delta.
 A row is the projected record the query executor yields; its synthetic
 `__rowid__` column is kept apart as `rowid`. Two rows are equal when every
 column, the row identifier included, is equal, which is Python's `!=` on the
 row dictionaries.
 */
module Rows {
  import opened Options

  /** A column value as the store hands it over. */
  datatype Scalar = Null | Int(i: int) | Str(s: string)

  type RowId = string

  datatype Row = Row(rowid: RowId, fields: map<string, Scalar>)

  datatype Op = INSERT | UPDATE | DELETE

  /** One row-level change: the operation and the row it carries. */
  datatype Delta = Delta(op: Op, row: Row)

  /** The rows a client currently displays, keyed by row identifier. */
  type View = map<RowId, Row>

  /**
   What the client does with one delivered row: an INSERT or an UPDATE stores
   the row under its identifier, a DELETE removes that identifier.
   */
  function Apply(v: View, d: Delta): (r: View)
    ensures d.op == DELETE ==> d.row.rowid !in r
    ensures d.op != DELETE ==> d.row.rowid in r && r[d.row.rowid] == d.row
    ensures forall k :: k != d.row.rowid ==> (k in r <==> k in v)
    ensures forall k :: k != d.row.rowid && k in v ==> r[k] == v[k]
  {
    if d.op == DELETE then v - {d.row.rowid} else v[d.row.rowid := d.row]
  }

  /** The client applies a list of deltas front to back. */
  function ApplyAll(v: View, ds: seq<Delta>): View
    decreases |ds|
  {
    if |ds| == 0 then v else ApplyAll(Apply(v, ds[0]), ds[1..])
  }

  lemma {:induction false} ApplyAllAppend(v: View, ds: seq<Delta>, es: seq<Delta>)
    ensures ApplyAll(v, ds + es) == ApplyAll(ApplyAll(v, ds), es)
    decreases |ds|
  {
    if |ds| == 0 {
      assert ds + es == es;
    } else {
      assert (ds + es)[1..] == ds[1..] + es;
      ApplyAllAppend(Apply(v, ds[0]), ds[1..], es);
    }
  }

  /** The row identifiers a list of deltas names, in order. */
  function RowIds(ds: seq<Delta>): (r: seq<RowId>)
    ensures |r| == |ds|
    ensures forall i :: 0 <= i < |ds| ==> r[i] == ds[i].row.rowid
  {
    seq(|ds|, i requires 0 <= i < |ds| => ds[i].row.rowid)
  }

  /** Applying a list in two parts, split anywhere, is applying it whole. */
  lemma ApplyAllSplit(v: View, ds: seq<Delta>, n: nat)
    requires n <= |ds|
    ensures ApplyAll(v, ds) == ApplyAll(ApplyAll(v, ds[..n]), ds[n..])
  {
    assert ds == ds[..n] + ds[n..];
    ApplyAllAppend(v, ds[..n], ds[n..]);
  }

  /** A list of deltas that each carry a different row identifier. */
  ghost predicate DistinctRows(ds: seq<Delta>) {
    forall i, j :: 0 <= i < j < |ds| ==> ds[i].row.rowid != ds[j].row.rowid
  }

  /** Deltas that never name `k` leave the client's row for `k` alone. */
  lemma {:induction false} ApplyAllUntouched(v: View, ds: seq<Delta>, k: RowId)
    requires forall i :: 0 <= i < |ds| ==> ds[i].row.rowid != k
    ensures k in ApplyAll(v, ds) <==> k in v
    ensures k in v ==> ApplyAll(v, ds)[k] == v[k]
    decreases |ds|
  {
    if |ds| > 0 {
      assert ds[0].row.rowid != k;
      forall i | 0 <= i < |ds[1..]| ensures ds[1..][i].row.rowid != k {
        assert ds[1..][i] == ds[i + 1];
      }
      ApplyAllUntouched(Apply(v, ds[0]), ds[1..], k);
    }
  }

  /** Among deltas for distinct row identifiers, each one decides its own row's fate. */
  lemma {:induction false} ApplyAllAt(v: View, ds: seq<Delta>, i: nat)
    requires DistinctRows(ds)
    requires i < |ds|
    ensures ds[i].row.rowid in ApplyAll(v, ds) <==> ds[i].op != DELETE
    ensures ds[i].op != DELETE ==> ApplyAll(v, ds)[ds[i].row.rowid] == ds[i].row
    decreases i
  {
    var t := ds[1..];
    if i == 0 {
      forall j | 0 <= j < |t| ensures t[j].row.rowid != ds[0].row.rowid {
        assert t[j] == ds[j + 1];
      }
      ApplyAllUntouched(Apply(v, ds[0]), t, ds[0].row.rowid);
    } else {
      assert DistinctRows(t) by {
        forall a, b | 0 <= a < b < |t| ensures t[a].row.rowid != t[b].row.rowid {
          assert t[a] == ds[a + 1] && t[b] == ds[b + 1];
        }
      }
      assert t[i - 1] == ds[i];
      ApplyAllAt(Apply(v, ds[0]), t, i - 1);
    }
  }

  /** The identifiers of a list of rows, in order. */
  function Ids(rows: seq<Row>): (r: seq<RowId>)
    ensures |r| == |rows|
    ensures forall i :: 0 <= i < |rows| ==> r[i] == rows[i].rowid
  {
    seq(|rows|, i requires 0 <= i < |rows| => rows[i].rowid)
  }

  /** The last of `rows` that carries identifier `k`, if any. */
  function Latest(rows: seq<Row>, k: RowId): (r: Option<Row>)
    ensures r.Some? <==> k in Ids(rows)
    ensures r.Some? ==> r.value in rows && r.value.rowid == k
    decreases |rows|
  {
    if |rows| == 0 then None
    else
      var later := Latest(rows[1..], k);
      assert Ids(rows) == [rows[0].rowid] + Ids(rows[1..]);
      if later.Some? then later
      else if rows[0].rowid == k then Some(rows[0])
      else None
  }

  /** An identifier occurs in `rows` when it is the first one's or occurs after it. */
  lemma IdsCons(rows: seq<Row>, k: RowId)
    requires |rows| > 0
    ensures k in Ids(rows) <==> k == rows[0].rowid || k in Ids(rows[1..])
  {
    assert Ids(rows) == [rows[0].rowid] + Ids(rows[1..]);
  }

  /** The last row for `k` is a later one when there is one, else the first row when it carries `k`. */
  lemma LatestCons(rows: seq<Row>, k: RowId)
    requires |rows| > 0
    ensures Latest(rows, k) ==
      if k in Ids(rows[1..]) then Latest(rows[1..], k)
      else if rows[0].rowid == k then Some(rows[0])
      else None
  {
  }

  /** `Latest` is the row at the last position carrying the identifier. */
  lemma {:induction false} LatestIsLast(rows: seq<Row>, i: nat)
    requires i < |rows|
    requires forall j :: i < j < |rows| ==> rows[j].rowid != rows[i].rowid
    ensures Latest(rows, rows[i].rowid) == Some(rows[i])
    decreases i
  {
    var k := rows[i].rowid;
    var t := rows[1..];
    assert forall j :: 0 <= j < |t| ==> t[j] == rows[j + 1];
    if i == 0 {
      assert k !in Ids(t) by {
        forall j | 0 <= j < |t| ensures Ids(t)[j] != k {
          assert Ids(t)[j] == rows[j + 1].rowid;
        }
      }
    } else {
      LatestIsLast(t, i - 1);
    }
  }
}

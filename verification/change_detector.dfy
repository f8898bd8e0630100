/**
 The change detector (`QueryData`): one per query definition. It derives the
 schema and the table -> aliases map from the configuration, snapshots the
 result rows a written record can touch before each commit, and after the
 commit diffs the new snapshot against the old one to raise row-level
 INSERT, UPDATE and DELETE deltas for the subscribed query instances.

 The store and the query executor are outside the model: the executor is a
 function from the rendered where-string and its arguments to the rows it
 yields, and the store's key fields are a function of the table name.
 */
module ChangeDetector {
  import opened Rows
  import opened Config
  import opened OrderedMap
  import opened WhereFilter

  type TxnId = string

  /** Row snapshot keyed by row identifier, in the order the executor yielded the rows. */
  type RowMap = OMap<Row>

  /** Every row of the snapshot sits under its own identifier. */
  ghost predicate Keyed(m: RowMap) {
    && Valid(m)
    && forall k :: k in m.vals ==> m.vals[k].rowid == k
  }

  datatype Detector = Detector(
    schema: seq<SchemaField>,
    aliasByTable: map<string, seq<string>>,
    rowsByTxnId: map<TxnId, RowMap>,
    subscribers: set<string>)

  /** The schema: each configured field's name, title and type, in field order. */
  function Schema(fields: seq<FieldSpec>): (r: seq<SchemaField>)
    ensures |r| == |fields|
    ensures forall i :: 0 <= i < |fields| ==>
      r[i] == SchemaField(fields[i].name, fields[i].title, fields[i].typ)
  {
    if |fields| == 0 then []
    else [SchemaField(fields[0].name, fields[0].title, fields[0].typ)] + Schema(fields[1..])
  }

  /** The aliases of the join legs on table `t`, in join-spec order. */
  function AliasesOf(joinspec: seq<JoinSpec>, t: string): seq<string> {
    if |joinspec| == 0 then []
    else (if joinspec[0].table == t then [joinspec[0].alias] else []) + AliasesOf(joinspec[1..], t)
  }

  /** `acc.get(t, [])` */
  function Listed(acc: map<string, seq<string>>, t: string): seq<string> {
    if t in acc then acc[t] else []
  }

  /**
   The alias-mapping loop: for each join leg in order, create the table's
   list if it is missing and append the leg's alias to it.
   */
  function AliasLoop(joinspec: seq<JoinSpec>, acc: map<string, seq<string>>): (r: map<string, seq<string>>)
    ensures forall t :: t in r <==> t in acc || |AliasesOf(joinspec, t)| > 0
    ensures forall t :: t in r ==> r[t] == Listed(acc, t) + AliasesOf(joinspec, t)
    decreases |joinspec|
  {
    if |joinspec| == 0 then acc
    else
      var spec := joinspec[0];
      var acc' := acc[spec.table := Listed(acc, spec.table) + [spec.alias]];
      var r := AliasLoop(joinspec[1..], acc');
      forall t ensures (t in r <==> t in acc || |AliasesOf(joinspec, t)| > 0)
                    && (t in r ==> r[t] == Listed(acc, t) + AliasesOf(joinspec, t)) {
        AliasLoopStep(joinspec, acc, acc', t);
      }
      r
  }

  /** One leg of the alias loop, seen from table `t`. */
  lemma AliasLoopStep(joinspec: seq<JoinSpec>, acc: map<string, seq<string>>, acc': map<string, seq<string>>, t: string)
    requires |joinspec| > 0
    requires acc' == acc[joinspec[0].table := Listed(acc, joinspec[0].table) + [joinspec[0].alias]]
    ensures t in acc' || |AliasesOf(joinspec[1..], t)| > 0 <==> t in acc || |AliasesOf(joinspec, t)| > 0
    ensures Listed(acc', t) + AliasesOf(joinspec[1..], t) == Listed(acc, t) + AliasesOf(joinspec, t)
  {
    AliasesOfCons(joinspec, t);
    var rest := AliasesOf(joinspec[1..], t);
    if joinspec[0].table == t {
      assert t in acc' && Listed(acc', t) == Listed(acc, t) + [joinspec[0].alias];
      assert AliasesOf(joinspec, t) == [joinspec[0].alias] + rest;
      assert (Listed(acc, t) + [joinspec[0].alias]) + rest == Listed(acc, t) + ([joinspec[0].alias] + rest);
    } else {
      assert (t in acc' <==> t in acc) && Listed(acc', t) == Listed(acc, t);
      assert AliasesOf(joinspec, t) == rest;
    }
  }

  /** The first leg contributes its alias when it is on `t`; the rest follow. */
  lemma AliasesOfCons(joinspec: seq<JoinSpec>, t: string)
    requires |joinspec| > 0
    ensures AliasesOf(joinspec, t) ==
      (if joinspec[0].table == t then [joinspec[0].alias] else []) + AliasesOf(joinspec[1..], t)
  {
  }

  /** A table has aliases exactly when some join leg names it. */
  lemma {:induction false} AliasesOfNonEmpty(joinspec: seq<JoinSpec>, t: string)
    ensures |AliasesOf(joinspec, t)| > 0 <==> exists j :: 0 <= j < |joinspec| && joinspec[j].table == t
    decreases |joinspec|
  {
    if |joinspec| > 0 {
      AliasesOfNonEmpty(joinspec[1..], t);
      if exists j :: 0 <= j < |joinspec[1..]| && joinspec[1..][j].table == t {
        var j :| 0 <= j < |joinspec[1..]| && joinspec[1..][j].table == t;
        assert joinspec[j + 1].table == t;
      }
      if exists j :: 0 <= j < |joinspec| && joinspec[j].table == t {
        var j :| 0 <= j < |joinspec| && joinspec[j].table == t;
        if j > 0 {
          assert joinspec[1..][j - 1].table == t;
        }
      }
    }
  }

  /**
   `aliasByTable`: a table has an entry exactly when some join leg uses it,
   and the entry lists that table's aliases in join-spec order.
   */
  function AliasByTable(joinspec: seq<JoinSpec>): (r: map<string, seq<string>>)
    ensures forall t :: t in r <==> exists j :: 0 <= j < |joinspec| && joinspec[j].table == t
    ensures forall t :: t in r ==> r[t] == AliasesOf(joinspec, t)
  {
    var r := AliasLoop(joinspec, map[]);
    forall t ensures t in r <==> exists j :: 0 <= j < |joinspec| && joinspec[j].table == t {
      AliasesOfNonEmpty(joinspec, t);
    }
    r
  }

  /** `QueryData.__init__`: schema, alias map, no snapshots and no subscribers yet. */
  function NewDetector(cfg: QueryCfg): (d: Detector)
    ensures d.schema == Schema(cfg.fields)
    ensures d.aliasByTable == AliasByTable(cfg.joinspec)
    ensures d.rowsByTxnId == map[] && d.subscribers == {}
  {
    Detector(Schema(cfg.fields), AliasByTable(cfg.joinspec), map[], {})
  }

  /** The write events whose handler is `__on_txn`. */
  const TxnEvents: seq<string> := ["insert", "update", "delete"]

  /** The write events whose handler is `__on_pretxn`. */
  const PreTxnEvents: seq<string> := ["preinsert", "preupdate", "predelete"]

  /**
   The database hooks `QueryData.__init__` registers: all six write events
   on every table that some join leg names, and on no other table.
   */
  function Hooks(cfg: QueryCfg): (r: set<(string, string)>)
    ensures forall e, t :: (e, t) in r <==>
      (e in TxnEvents || e in PreTxnEvents) && exists j :: 0 <= j < |cfg.joinspec| && cfg.joinspec[j].table == t
    ensures |r| == 0 <==> |cfg.joinspec| == 0
  {
    var tables := NewDetector(cfg).aliasByTable.Keys;
    var r := set e, t | e in TxnEvents + PreTxnEvents && t in tables :: (e, t);
    assert |cfg.joinspec| > 0 ==> ("insert", cfg.joinspec[0].table) in r;
    r
  }

  /** `on(...)` for the three delta kinds: the instance becomes a fan-out target. */
  function Subscribe(d: Detector, id: string): (r: Detector)
    ensures r.subscribers == d.subscribers + {id}
    ensures r.rowsByTxnId == d.rowsByTxnId && r.aliasByTable == d.aliasByTable && r.schema == d.schema
  {
    d.(subscribers := d.subscribers + {id})
  }

  /** `off(...)` for the three delta kinds; removing an absent instance changes nothing. */
  function Unsubscribe(d: Detector, id: string): (r: Detector)
    ensures id !in r.subscribers
    ensures forall s :: s != id ==> (s in r.subscribers <==> s in d.subscribers)
    ensures r.rowsByTxnId == d.rowsByTxnId && r.aliasByTable == d.aliasByTable && r.schema == d.schema
  {
    d.(subscribers := d.subscribers - {id})
  }

  /**
   `rows[row["__rowid__"]] = row` over the executor's rows: a later row with
   the same identifier overwrites the earlier one in place.
   */
  function Collect(rows: seq<Row>, acc: RowMap): (r: RowMap)
    requires Keyed(acc)
    ensures Keyed(r)
    ensures forall k :: k in r.vals <==> k in acc.vals || k in Ids(rows)
    ensures forall k :: k in r.vals ==>
      r.vals[k] == (if k in Ids(rows) then Latest(rows, k).value else acc.vals[k])
    decreases |rows|
  {
    if |rows| == 0 then acc
    else
      var acc' := Put(acc, rows[0].rowid, rows[0]);
      assert Ids(rows) == [rows[0].rowid] + Ids(rows[1..]);
      Collect(rows[1..], acc')
  }

  /**
   `__rowsByTable`: run the query definition restricted to the filter built
   from the written record (no pagination) and key the result by row id.
   The table must be one the detector hooked, which the store guarantees.
   */
  function RowsByTable(d: Detector, keyfields: string -> seq<string>,
                       execute: (string, seq<Scalar>) -> seq<Row>,
                       table: string, record: map<string, Scalar>): (r: RowMap)
    requires table in d.aliasByTable
    ensures Keyed(r)
    ensures var f := BuildFilter(d.aliasByTable[table], keyfields(table), record);
      var rows := execute(Render(f), f.args);
      && (forall k :: k in r.vals <==> k in Ids(rows))
      && (forall k :: k in r.vals ==> r.vals[k] == Latest(rows, k).value && r.vals[k] in rows)
  {
    var f := BuildFilter(d.aliasByTable[table], keyfields(table), record);
    Collect(execute(Render(f), f.args), Empty())
  }

  /** Only the alias map of the detector feeds a snapshot. */
  lemma RowsByTableFrame(d: Detector, d': Detector, keyfields: string -> seq<string>,
                         execute: (string, seq<Scalar>) -> seq<Row>,
                         table: string, record: map<string, Scalar>)
    requires table in d.aliasByTable && d'.aliasByTable == d.aliasByTable
    ensures RowsByTable(d', keyfields, execute, table, record) == RowsByTable(d, keyfields, execute, table, record)
  {
  }

  /** Every stored pre-commit snapshot is keyed by row identifier. */
  ghost predicate Snapshots(d: Detector) {
    forall t :: t in d.rowsByTxnId ==> Keyed(d.rowsByTxnId[t])
  }

  /**
   `__on_pretxn`: snapshot the rows the written record can touch, as the
   executor yields them before the commit, and remember the snapshot under
   the transaction id (a repeated id is overwritten).
   */
  function PreTxn(d: Detector, keyfields: string -> seq<string>,
                  execute: (string, seq<Scalar>) -> seq<Row>,
                  txnId: TxnId, table: string, record: map<string, Scalar>): (r: Detector)
    requires table in d.aliasByTable
    ensures r.rowsByTxnId.Keys == d.rowsByTxnId.Keys + {txnId}
    ensures r.rowsByTxnId[txnId] == RowsByTable(d, keyfields, execute, table, record)
    ensures forall t :: t in d.rowsByTxnId && t != txnId ==> r.rowsByTxnId[t] == d.rowsByTxnId[t]
    ensures Snapshots(d) ==> Snapshots(r)
    ensures r.subscribers == d.subscribers && r.aliasByTable == d.aliasByTable && r.schema == d.schema
  {
    d.(rowsByTxnId := d.rowsByTxnId[txnId := RowsByTable(d, keyfields, execute, table, record)])
  }

  /** A DELETE carrying the old row for each identifier of `keys` that is gone afterwards, in `keys` order. */
  function Deletions(keys: seq<RowId>, before: map<RowId, Row>, after: map<RowId, Row>): (r: seq<Delta>)
    requires forall k :: k in keys ==> k in before && before[k].rowid == k
    ensures forall i :: 0 <= i < |r| ==> Classified(before, after, r[i]) && r[i].op == DELETE
    ensures forall k :: k in RowIds(r) ==> k in keys
    ensures forall k :: k in keys && k !in after ==> k in RowIds(r)
    ensures Distinct(keys) ==> DistinctRows(r)
    decreases |keys|
  {
    if |keys| == 0 then []
    else
      var k0 := keys[0];
      var rest := Deletions(keys[1..], before, after);
      DistinctTailWhen(keys);
      if k0 !in after then
        var r := [Delta(DELETE, before[k0])] + rest;
        ConsIds(keys, rest, r, after.Keys);
        ConsClassified(before, after, rest, r);
        r
      else
        SkipIds(keys, rest, after.Keys);
        rest
  }

  /**
   An INSERT for each identifier of `keys` that was absent before, and an
   UPDATE for each one present before with different content, both carrying
   the new row, in `keys` order.
   */
  function Changes(keys: seq<RowId>, before: map<RowId, Row>, after: map<RowId, Row>): (r: seq<Delta>)
    requires forall k :: k in keys ==> k in after && after[k].rowid == k
    ensures forall i :: 0 <= i < |r| ==> Classified(before, after, r[i]) && r[i].op != DELETE
    ensures forall k :: k in RowIds(r) ==> k in keys
    ensures forall k :: k in keys && k !in Unchanged(before, after) ==> k in RowIds(r)
    ensures Distinct(keys) ==> DistinctRows(r)
    decreases |keys|
  {
    if |keys| == 0 then []
    else
      var k0 := keys[0];
      var rest := Changes(keys[1..], before, after);
      DistinctTailWhen(keys);
      if k0 !in Unchanged(before, after) then
        var op := if k0 !in before then INSERT else UPDATE;
        var r := [Delta(op, after[k0])] + rest;
        ConsIds(keys, rest, r, Unchanged(before, after));
        ConsClassified(before, after, rest, r);
        r
      else
        SkipIds(keys, rest, Unchanged(before, after));
        rest
  }

  /** The identifiers present before and after with identical rows. */
  function Unchanged(before: map<RowId, Row>, after: map<RowId, Row>): set<RowId> {
    set k | k in before && k in after && before[k] == after[k]
  }

  /**
   One delta classified as the source classifies it: DELETE with the old row
   for an identifier that disappeared, INSERT with the new row for one that
   appeared, UPDATE with the new row for one whose row changed.
   */
  ghost predicate Classified(before: map<RowId, Row>, after: map<RowId, Row>, d: Delta) {
    var k := d.row.rowid;
    && (d.op == DELETE ==> k in before && k !in after && d.row == before[k])
    && (d.op == INSERT ==> k !in before && k in after && d.row == after[k])
    && (d.op == UPDATE ==> k in before && k in after && before[k] != after[k] && d.row == after[k])
  }

  /** Prepending a classified delta of the same kind keeps the whole list classified. */
  lemma ConsClassified(before: map<RowId, Row>, after: map<RowId, Row>, rest: seq<Delta>, r: seq<Delta>)
    requires |r| == |rest| + 1 && r[1..] == rest
    requires Classified(before, after, r[0])
    requires forall i :: 0 <= i < |rest| ==> Classified(before, after, rest[i]) && (rest[i].op == DELETE <==> r[0].op == DELETE)
    ensures forall i :: 0 <= i < |r| ==> Classified(before, after, r[i]) && (r[i].op == DELETE <==> r[0].op == DELETE)
  {
    forall i | 0 < i < |r| ensures r[i] == rest[i - 1] {
    }
  }

  /** Prepending the delta for `keys[0]` keeps every identifier property of the tail. */
  lemma ConsIds(keys: seq<RowId>, rest: seq<Delta>, r: seq<Delta>, skip: set<RowId>)
    requires |keys| > 0 && keys[0] !in skip
    requires |r| == |rest| + 1 && r[0].row.rowid == keys[0] && r[1..] == rest
    requires forall k :: k in RowIds(rest) ==> k in keys[1..]
    requires forall k :: k in keys[1..] && k !in skip ==> k in RowIds(rest)
    requires Distinct(keys) ==> Distinct(keys[1..]) && keys[0] !in keys[1..]
    requires Distinct(keys[1..]) ==> DistinctRows(rest)
    ensures forall k :: k in RowIds(r) ==> k in keys
    ensures forall k :: k in keys && k !in skip ==> k in RowIds(r)
    ensures Distinct(keys) ==> DistinctRows(r)
  {
    assert RowIds(r) == [keys[0]] + RowIds(rest);
    assert forall k :: k in keys && k != keys[0] ==> k in keys[1..];
    if Distinct(keys) {
      forall i, j | 0 <= i < j < |r| ensures r[i].row.rowid != r[j].row.rowid {
        assert r[j] == rest[j - 1];
        if i > 0 {
          assert r[i] == rest[i - 1];
        } else {
          assert RowIds(rest)[j - 1] in RowIds(rest);
        }
      }
    }
  }

  /** Skipping `keys[0]`, which is in `skip`, keeps every identifier property of the tail. */
  lemma SkipIds(keys: seq<RowId>, rest: seq<Delta>, skip: set<RowId>)
    requires |keys| > 0 && keys[0] in skip
    requires forall k :: k in RowIds(rest) ==> k in keys[1..]
    requires forall k :: k in keys[1..] && k !in skip ==> k in RowIds(rest)
    requires Distinct(keys) ==> Distinct(keys[1..])
    requires Distinct(keys[1..]) ==> DistinctRows(rest)
    ensures forall k :: k in RowIds(rest) ==> k in keys
    ensures forall k :: k in keys && k !in skip ==> k in RowIds(rest)
    ensures Distinct(keys) ==> DistinctRows(rest)
  {
    assert forall k :: k in keys && k != keys[0] ==> k in keys[1..];
    assert forall k :: k in keys[1..] ==> k in keys;
  }

  /**
   The before/after diff of `__on_txn`: deletions first (old snapshot
   order), then insertions and updates (new snapshot order). Each
   identifier that changed gets exactly one delta; unchanged rows get none.
   */
  function Diff(before: RowMap, after: RowMap): (r: seq<Delta>)
    requires Keyed(before) && Keyed(after)
    ensures DistinctRows(r)
    ensures forall i :: 0 <= i < |r| ==> Classified(before.vals, after.vals, r[i])
    ensures forall k :: k in RowIds(r) <==> k in before.vals + after.vals && k !in Unchanged(before.vals, after.vals)
  {
    var dels := Deletions(before.keys, before.vals, after.vals);
    var chgs := Changes(after.keys, before.vals, after.vals);
    DiffDistinct(dels, chgs, before.vals, after.vals);
    DiffClassified(dels, chgs, before.vals, after.vals);
    DiffCovers(before, after, dels, chgs);
    dels + chgs
  }

  /** The deletions come first: no deletion follows an insert or an update. */
  lemma DiffDeletesFirst(before: RowMap, after: RowMap)
    requires Keyed(before) && Keyed(after)
    ensures var r := Diff(before, after);
      forall i, j :: 0 <= i < j < |r| && r[j].op == DELETE ==> r[i].op == DELETE
  {
    var dels := Deletions(before.keys, before.vals, after.vals);
    var chgs := Changes(after.keys, before.vals, after.vals);
    var r := Diff(before, after);
    assert r == dels + chgs;
    forall i, j | 0 <= i < j < |r| && r[j].op == DELETE ensures r[i].op == DELETE {
      assert j < |dels| && r[i] == dels[i];
    }
  }

  /** No deletion and change share an identifier, so the concatenation stays distinct. */
  lemma DiffDistinct(dels: seq<Delta>, chgs: seq<Delta>, before: map<RowId, Row>, after: map<RowId, Row>)
    requires DistinctRows(dels) && DistinctRows(chgs)
    requires forall i :: 0 <= i < |dels| ==> Classified(before, after, dels[i]) && dels[i].op == DELETE
    requires forall i :: 0 <= i < |chgs| ==> Classified(before, after, chgs[i]) && chgs[i].op != DELETE
    ensures DistinctRows(dels + chgs)
  {
    var r := dels + chgs;
    forall i, j | 0 <= i < j < |r| ensures r[i].row.rowid != r[j].row.rowid {
      if j >= |dels| {
        assert r[j] == chgs[j - |dels|];
        if i >= |dels| {
          assert r[i] == chgs[i - |dels|];
        } else {
          assert r[i] == dels[i];
        }
      }
    }
  }

  lemma DiffClassified(dels: seq<Delta>, chgs: seq<Delta>, before: map<RowId, Row>, after: map<RowId, Row>)
    requires forall i :: 0 <= i < |dels| ==> Classified(before, after, dels[i])
    requires forall i :: 0 <= i < |chgs| ==> Classified(before, after, chgs[i])
    ensures forall i :: 0 <= i < |dels + chgs| ==> Classified(before, after, (dels + chgs)[i])
  {
    var r := dels + chgs;
    forall i | 0 <= i < |r| ensures Classified(before, after, r[i]) {
      if i >= |dels| {
        assert r[i] == chgs[i - |dels|];
      }
    }
  }

  lemma DiffCovers(before: RowMap, after: RowMap, dels: seq<Delta>, chgs: seq<Delta>)
    requires Keyed(before) && Keyed(after)
    requires forall k :: k in RowIds(dels) ==> k in before.keys
    requires forall k :: k in before.keys && k !in after.vals ==> k in RowIds(dels)
    requires forall i :: 0 <= i < |dels| ==> Classified(before.vals, after.vals, dels[i]) && dels[i].op == DELETE
    requires forall k :: k in RowIds(chgs) ==> k in after.keys
    requires forall k :: k in after.keys && k !in Unchanged(before.vals, after.vals) ==> k in RowIds(chgs)
    requires forall i :: 0 <= i < |chgs| ==> Classified(before.vals, after.vals, chgs[i]) && chgs[i].op != DELETE
    ensures forall k :: k in RowIds(dels + chgs) <==>
      k in before.vals + after.vals && k !in Unchanged(before.vals, after.vals)
  {
    assert RowIds(dels + chgs) == RowIds(dels) + RowIds(chgs);
    forall k | k in RowIds(dels) ensures k !in Unchanged(before.vals, after.vals) {
      var i :| 0 <= i < |dels| && RowIds(dels)[i] == k;
    }
    forall k | k in RowIds(chgs) ensures k !in Unchanged(before.vals, after.vals) {
      var i :| 0 <= i < |chgs| && RowIds(chgs)[i] == k;
    }
  }

  /**
   Replaying the diff on the old snapshot, the way a client applies deltas,
   yields exactly the new snapshot.
   */
  lemma DiffReplays(before: RowMap, after: RowMap)
    requires Keyed(before) && Keyed(after)
    ensures ApplyAll(before.vals, Diff(before, after)) == after.vals
  {
    var res := ApplyAll(before.vals, Diff(before, after));
    forall k ensures (k in res <==> k in after.vals) && (k in res ==> res[k] == after.vals[k]) {
      DiffReplaysAt(before, after, k);
    }
  }

  /** One identifier at a time: a changed row is decided by its own delta, an unchanged one by none. */
  lemma DiffReplaysAt(before: RowMap, after: RowMap, k: RowId)
    requires Keyed(before) && Keyed(after)
    ensures var res := ApplyAll(before.vals, Diff(before, after));
      (k in res <==> k in after.vals) && (k in res ==> res[k] == after.vals[k])
  {
    var ds := Diff(before, after);
    if k in RowIds(ds) {
      var i :| 0 <= i < |ds| && RowIds(ds)[i] == k;
      ReplayChanged(before.vals, after.vals, ds, i);
    } else {
      assert k !in before.vals + after.vals || k in Unchanged(before.vals, after.vals);
      ReplayUnchanged(before.vals, after.vals, ds, k);
    }
  }

  lemma ReplayChanged(before: map<RowId, Row>, after: map<RowId, Row>, ds: seq<Delta>, i: nat)
    requires DistinctRows(ds) && i < |ds|
    requires Classified(before, after, ds[i])
    ensures var res := ApplyAll(before, ds); var k := ds[i].row.rowid;
      (k in res <==> k in after) && (k in res ==> res[k] == after[k])
  {
    ApplyAllAt(before, ds, i);
  }

  lemma ReplayUnchanged(before: map<RowId, Row>, after: map<RowId, Row>, ds: seq<Delta>, k: RowId)
    requires k !in RowIds(ds)
    requires k !in before + after || k in Unchanged(before, after)
    ensures var res := ApplyAll(before, ds);
      (k in res <==> k in after) && (k in res ==> res[k] == after[k])
  {
    forall i | 0 <= i < |ds| ensures ds[i].row.rowid != k {
      assert RowIds(ds)[i] == ds[i].row.rowid;
    }
    ApplyAllUntouched(before, ds, k);
  }

  /** What the post-commit hook produces: the deltas to fan out and the detector afterwards. */
  datatype TxnOutcome =
    | Raised(d: Detector)
    | Diffed(deltas: seq<Delta>, d: Detector)

  /**
   `__on_txn`: look up the pre-commit snapshot, snapshot the rows the written
   record can touch as the executor yields them after the commit, diff the
   two and drop the pre-commit snapshot. Without a pre-commit snapshot the
   lookup raises (`KeyError`) before the query runs and before anything is
   raised or removed.
   */
  function PostTxn(d: Detector, keyfields: string -> seq<string>,
                   execute: (string, seq<Scalar>) -> seq<Row>,
                   txnId: TxnId, table: string, record: map<string, Scalar>): (r: TxnOutcome)
    requires Snapshots(d) && table in d.aliasByTable
    ensures txnId !in d.rowsByTxnId <==> r.Raised?
    ensures r.Raised? ==> r.d == d
    ensures r.Diffed? ==> var after := RowsByTable(d, keyfields, execute, table, record);
      && r.deltas == Diff(d.rowsByTxnId[txnId], after)
      && ApplyAll(d.rowsByTxnId[txnId].vals, r.deltas) == after.vals
    ensures r.Diffed? ==> r.d.rowsByTxnId == d.rowsByTxnId - {txnId}
    ensures Snapshots(r.d)
    ensures r.d.subscribers == d.subscribers && r.d.aliasByTable == d.aliasByTable && r.d.schema == d.schema
  {
    if txnId !in d.rowsByTxnId then Raised(d)
    else
      var before := d.rowsByTxnId[txnId];
      var after := RowsByTable(d, keyfields, execute, table, record);
      DiffReplays(before, after);
      Diffed(Diff(before, after), d.(rowsByTxnId := d.rowsByTxnId - {txnId}))
  }

  /**
   Two transactions whose hooks interleave as A-pre, B-pre, B-post, A-post
   each get the diff of their own two snapshots, as they would alone, and no
   snapshot of either is left behind. Each hook sees the store as it is at
   that moment, so each has its own executor.
   */
  lemma InterleavedTxnsIsolated(d: Detector, keyfields: string -> seq<string>,
                                a: TxnId, tableA: string, recordA: map<string, Scalar>,
                                b: TxnId, tableB: string, recordB: map<string, Scalar>,
                                preA: (string, seq<Scalar>) -> seq<Row>, preB: (string, seq<Scalar>) -> seq<Row>,
                                postB: (string, seq<Scalar>) -> seq<Row>, postA: (string, seq<Scalar>) -> seq<Row>)
    requires Snapshots(d) && tableA in d.aliasByTable && tableB in d.aliasByTable
    requires a != b
    ensures var d1 := PreTxn(PreTxn(d, keyfields, preA, a, tableA, recordA), keyfields, preB, b, tableB, recordB);
      var rb := PostTxn(d1, keyfields, postB, b, tableB, recordB);
      && rb.Diffed?
      && rb.deltas == Diff(RowsByTable(d, keyfields, preB, tableB, recordB), RowsByTable(d, keyfields, postB, tableB, recordB))
      && var ra := PostTxn(rb.d, keyfields, postA, a, tableA, recordA);
      && ra.Diffed?
      && ra.deltas == Diff(RowsByTable(d, keyfields, preA, tableA, recordA), RowsByTable(d, keyfields, postA, tableA, recordA))
      && ra.d.rowsByTxnId == d.rowsByTxnId - {a, b}
  {
    var sA := RowsByTable(d, keyfields, preA, tableA, recordA);
    var dA := PreTxn(d, keyfields, preA, a, tableA, recordA);
    var d1 := PreTxn(dA, keyfields, preB, b, tableB, recordB);
    InnerTxnFirst(d, keyfields, a, tableA, recordA, b, tableB, recordB, preA, preB, postB);
    var rb := PostTxn(d1, keyfields, postB, b, tableB, recordB);
    OuterTxnLast(d, rb.d, keyfields, a, tableA, recordA, b, sA, postA);
  }

  /** The inner transaction B of the interleaving: its post-commit hook diffs B's own snapshots, and A's stays. */
  lemma InnerTxnFirst(d: Detector, keyfields: string -> seq<string>,
                      a: TxnId, tableA: string, recordA: map<string, Scalar>,
                      b: TxnId, tableB: string, recordB: map<string, Scalar>,
                      preA: (string, seq<Scalar>) -> seq<Row>, preB: (string, seq<Scalar>) -> seq<Row>,
                      postB: (string, seq<Scalar>) -> seq<Row>)
    requires Snapshots(d) && tableA in d.aliasByTable && tableB in d.aliasByTable
    requires a != b
    ensures var d1 := PreTxn(PreTxn(d, keyfields, preA, a, tableA, recordA), keyfields, preB, b, tableB, recordB);
      var rb := PostTxn(d1, keyfields, postB, b, tableB, recordB);
      && rb.Diffed?
      && rb.deltas == Diff(RowsByTable(d, keyfields, preB, tableB, recordB), RowsByTable(d, keyfields, postB, tableB, recordB))
      && rb.d.rowsByTxnId == d.rowsByTxnId[a := RowsByTable(d, keyfields, preA, tableA, recordA)] - {b}
      && Snapshots(rb.d) && rb.d.aliasByTable == d.aliasByTable
  {
    var sA := RowsByTable(d, keyfields, preA, tableA, recordA);
    var sB := RowsByTable(d, keyfields, preB, tableB, recordB);
    var dA := PreTxn(d, keyfields, preA, a, tableA, recordA);
    RowsByTableFrame(d, dA, keyfields, preB, tableB, recordB);
    var d1 := PreTxn(dA, keyfields, preB, b, tableB, recordB);
    assert d1.rowsByTxnId == d.rowsByTxnId[a := sA][b := sB];
    RowsByTableFrame(d, d1, keyfields, postB, tableB, recordB);
    PostTxnAfterPre(d1, keyfields, postB, b, tableB, recordB, sB, RowsByTable(d, keyfields, postB, tableB, recordB));
  }

  /** The outer transaction A, after B's hooks: its post-commit hook diffs A's own snapshots and nothing of either is left. */
  lemma OuterTxnLast(d: Detector, d2: Detector, keyfields: string -> seq<string>,
                     a: TxnId, tableA: string, recordA: map<string, Scalar>, b: TxnId, sA: RowMap,
                     postA: (string, seq<Scalar>) -> seq<Row>)
    requires Snapshots(d2) && tableA in d.aliasByTable && d2.aliasByTable == d.aliasByTable
    requires a != b
    requires d2.rowsByTxnId == d.rowsByTxnId[a := sA] - {b}
    ensures var ra := PostTxn(d2, keyfields, postA, a, tableA, recordA);
      && ra.Diffed?
      && ra.deltas == Diff(sA, RowsByTable(d, keyfields, postA, tableA, recordA))
      && ra.d.rowsByTxnId == d.rowsByTxnId - {a, b}
  {
    RowsByTableFrame(d, d2, keyfields, postA, tableA, recordA);
    PostTxnAfterPre(d2, keyfields, postA, a, tableA, recordA, sA, RowsByTable(d, keyfields, postA, tableA, recordA));
    DropBoth(d.rowsByTxnId, a, sA, b);
  }

  /** The post-commit hook of a transaction whose snapshots are `before` and `after` raises their diff and drops the first. */
  lemma PostTxnAfterPre(d: Detector, keyfields: string -> seq<string>,
                        execute: (string, seq<Scalar>) -> seq<Row>,
                        t: TxnId, table: string, record: map<string, Scalar>, before: RowMap, after: RowMap)
    requires Snapshots(d) && table in d.aliasByTable
    requires t in d.rowsByTxnId && d.rowsByTxnId[t] == before
    requires RowsByTable(d, keyfields, execute, table, record) == after
    ensures PostTxn(d, keyfields, execute, t, table, record).Diffed?
    ensures PostTxn(d, keyfields, execute, t, table, record).deltas == Diff(before, after)
    ensures PostTxn(d, keyfields, execute, t, table, record).d.rowsByTxnId == d.rowsByTxnId - {t}
  {
  }

  lemma DropBoth(m: map<TxnId, RowMap>, a: TxnId, x: RowMap, b: TxnId)
    requires a != b
    ensures m[a := x] - {b} - {a} == m - {a, b}
  {
  }
}
